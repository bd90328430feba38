/**
 The two text fields of `FormField`: the edit filter each applies in its
 `onValueChange` handler, and the badge ("Total" / "%") each shows beside it.
 */
module FormField {
  import opened KotlinText

  /**
   One field's state: `text` is the hoisted value the field displays
   (`numState` / `percentState` in the activity) and `holder` is the field's
   local copy (`numHolder` / `percentHolder`) that decides the badge.
   */
  datatype Field = Field(text: string, holder: string)

  /** Both strings start out empty. */
  const Blank: Field := Field("", "")

  /** The holder and the displayed text move in lockstep. */
  predicate InStep(f: Field) {
    f.holder == f.text
  }

  /** The count filter: every character of the candidate is a digit. */
  function CountEditAccepted(candidate: string): (accepted: bool)
    ensures accepted <==> forall i | 0 <= i < |candidate| :: '0' <= candidate[i] <= '9'
  {
    AllDigits(candidate)
  }

  /**
   The percent filter: all digits, and `candidate.toIntOrNull() ?: 0` in
   `0..100`.  A digit string too long for an `Int` falls back to 0 and is
   therefore accepted.
   */
  function PercentEditAccepted(candidate: string): (accepted: bool)
    ensures accepted <==>
      && AllDigits(candidate)
      && (candidate == [] || DecimalValue(candidate) <= 100 || IntMax < DecimalValue(candidate))
  {
    AllDigits(candidate) && 0 <= ToIntOrNull(candidate).GetOr(0) <= 100
  }

  /** An accepted edit stores the candidate in both the holder and the field state. */
  function Take(candidate: string): (r: Field)
    ensures r.text == candidate && r.holder == candidate
    ensures InStep(r)
  {
    Field(candidate, candidate)
  }

  /** The count field's `onValueChange`: a rejected candidate leaves the field as it was. */
  function EditCount(f: Field, candidate: string): (r: Field)
    ensures (forall i | 0 <= i < |candidate| :: IsDigit(candidate[i])) ==>
      r.text == candidate && r.holder == candidate
    ensures !(forall i | 0 <= i < |candidate| :: IsDigit(candidate[i])) ==> r == f
    ensures InStep(f) ==> InStep(r)
  {
    if CountEditAccepted(candidate) then Take(candidate) else f
  }

  /** The percent field's `onValueChange`: a rejected candidate leaves the field as it was. */
  function EditPercent(f: Field, candidate: string): (r: Field)
    ensures PercentEditAccepted(candidate) ==> r.text == candidate && r.holder == candidate
    ensures !PercentEditAccepted(candidate) ==> r == f
    ensures InStep(f) ==> InStep(r)
    ensures PercentEditAccepted(f.text) ==> PercentEditAccepted(r.text)
  {
    if PercentEditAccepted(candidate) then Take(candidate) else f
  }

  /** The trailing badge is drawn while the holder is non-empty. */
  function ShowsBadge(f: Field): (shown: bool)
    ensures shown <==> |f.holder| > 0
    ensures InStep(f) ==> (shown <==> f.text != [])
  {
    f.holder != []
  }

  // ---------------------------------------------------------------------------
  // Properties of the filters

  /** Typing one more character keeps an accepted count candidate acceptable exactly when that character is a digit. */
  lemma {:induction false} CountEditAcceptedAppend(prefix: string, c: char)
    ensures CountEditAccepted(prefix + [c]) <==> CountEditAccepted(prefix) && IsDigit(c)
  {
    var s := prefix + [c];
    assert s[..|prefix|] == prefix;
    assert s[|prefix|] == c;
    if CountEditAccepted(prefix) && IsDigit(c) {
      forall i | 0 <= i < |s| ensures IsDigit(s[i]) {
        if i < |prefix| { assert s[i] == prefix[i]; }
      }
    }
    if CountEditAccepted(s) {
      forall i | 0 <= i < |prefix| ensures IsDigit(prefix[i]) {
        assert prefix[i] == s[i];
      }
    }
  }

  /** Every string the percent filter accepts also passes the count filter. */
  lemma PercentAcceptedIsCountAccepted(candidate: string)
    requires PercentEditAccepted(candidate)
    ensures CountEditAccepted(candidate)
  {
  }

  /** Accepted percent text whose value fits in an `Int` lies in 0..100. */
  lemma PercentAcceptedInRange(candidate: string)
    requires PercentEditAccepted(candidate) && ToIntOrNull(candidate).Some?
    ensures DecimalValue(candidate) <= 100
  {
  }

  /** A leading zero never changes the percent filter's verdict: "0100" is judged as "100". */
  lemma PercentLeadingZeroSameVerdict(candidate: string)
    ensures PercentEditAccepted("0" + candidate) <==> PercentEditAccepted(candidate)
  {
    if AllDigits(candidate) {
      LeadingZeroIgnored(candidate);
    } else {
      var t := "0" + candidate;
      var i :| 0 <= i < |candidate| && !IsDigit(candidate[i]);
      assert t[i + 1] == candidate[i];
    }
  }

  /** A rejected edit changes neither the field text nor the badge. */
  lemma RejectedEditKeepsBadge(f: Field, candidate: string)
    requires !CountEditAccepted(candidate)
    ensures EditCount(f, candidate).text == f.text
    ensures ShowsBadge(EditCount(f, candidate)) == ShowsBadge(f)
  {
  }

  /** With holder and text in step, the badge is shown exactly when the text is non-empty. */
  lemma BadgeIffNonEmpty(f: Field)
    requires InStep(f)
    ensures ShowsBadge(f) <==> f.text != []
  {
  }

  lemma CountFilterExamples()
    ensures CountEditAccepted("")
    ensures CountEditAccepted("007")
    ensures !CountEditAccepted("12a")
    ensures !CountEditAccepted("-3")
    ensures !CountEditAccepted(" 1")
  {
    assert "12a"[2] == 'a';
    assert "-3"[0] == '-';
    assert " 1"[0] == ' ';
  }

  lemma PercentFilterExamples()
    ensures PercentEditAccepted("")
    ensures PercentEditAccepted("100")
    ensures PercentEditAccepted("0100")
    ensures !PercentEditAccepted("101")
    ensures !PercentEditAccepted("-5")
    ensures !PercentEditAccepted("5%")
  {
    assert DecimalValue("100") == 100 by {
      assert "100"[..2] == "10";
      assert "10"[..1] == "1";
      assert "1"[..0] == "";
    }
    PercentLeadingZeroSameVerdict("100");
    assert "0" + "100" == "0100";
    assert DecimalValue("101") == 101 by {
      assert "101"[..2] == "10";
      assert "10"[..1] == "1";
      assert "1"[..0] == "";
    }
    assert "-5"[0] == '-';
    assert "5%"[1] == '%';
  }

  /** "99999999999" overflows `Int`, `?: 0` turns it into 0, and the percent filter accepts it. */
  lemma PercentFilterAcceptsOverflow()
    ensures PercentEditAccepted("99999999999")
  {
    var s := "99999999999";
    assert AllDigits(s);
    LongDigitStringOverflows(s);
  }
}

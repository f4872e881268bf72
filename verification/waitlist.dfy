/** The waitlist form: it validates an email and an age, and appends accepted
    entries to a stored list. The browser's key-value storage becomes a
    `Store` value passed in and returned. */
module Waitlist {

  /** The result of converting the age text to a number: an integer or NaN. */
  datatype Number = Num(value: int) | NaN

  /** One waitlist entry. */
  datatype Entry = Entry(email: string, age: Number)

  /** What the storage holds under the waitlist key. */
  datatype Store = Missing | Unparseable | Saved(entries: seq<Entry>)

  /** The form's state after a submission. */
  datatype FormState = FormState(error: string, submitted: bool, store: Store)

  const MissingFieldsError := "Please enter your email and age."
  const UnderAgeError := "You must be at least 18 years old to join the waitlist."
  const MinimumAge := 18

  predicate IsDigit(c: char)
  {
    '0' <= c <= '9'
  }

  predicate AllDigits(s: string)
  {
    forall i :: 0 <= i < |s| ==> IsDigit(s[i])
  }

  function DigitChar(d: nat): (c: char)
    requires d < 10
    ensures IsDigit(c) && c as int - '0' as int == d
  {
    ('0' as int + d) as char
  }

  /** The value of a run of decimal digits, most significant first. */
  function DigitsValue(s: string): nat
    requires AllDigits(s)
  {
    if |s| == 0 then 0
    else DigitsValue(s[..|s| - 1]) * 10 + (s[|s| - 1] as int - '0' as int)
  }

  /** `n` times ten to the power `k`. */
  function Scale(n: nat, k: nat): (m: nat)
    ensures m >= n
  {
    if k == 0 then n else 10 * Scale(n, k - 1)
  }

  /** `n` divided by ten to the power `k`, rounded down: one digit dropped
      per step. */
  function ShrinkDown(n: nat, k: nat): nat
  {
    if k == 0 then n else ShrinkDown(n / 10, k - 1)
  }

  /** `n` divided by ten to the power `k`, rounded up: rounding up at every
      step rounds the whole quotient up. */
  function ShrinkUp(n: nat, k: nat): nat
  {
    if k == 0 then n else ShrinkUp((n + 9) / 10, k - 1)
  }

  /** The first position of `a` or `b` in `s`, or `|s|` when neither occurs. */
  function FindEither(s: string, a: char, b: char): (i: nat)
    ensures i <= |s|
  {
    if |s| == 0 || s[0] == a || s[0] == b then 0
    else 1 + FindEither(s[1..], a, b)
  }

  /** The rounded-down value of `n` times ten to the power `e`. */
  function FloorScaled(n: nat, e: int): nat
  {
    if e >= 0 then Scale(n, e) else ShrinkDown(n, -e)
  }

  /** The rounded-up value of `n` times ten to the power `e`. */
  function CeilScaled(n: nat, e: int): nat
  {
    if e >= 0 then Scale(n, e) else ShrinkUp(n, -e)
  }

  /** The exponent after the `e` of a number literal: an optional sign, then
      at least one decimal digit. */
  function ExponentValue(s: string): (n: Number)
    ensures |s| > 0 && AllDigits(s) ==> n == Num(DigitsValue(s))
  {
    var digits := if |s| > 0 && (s[0] == '-' || s[0] == '+') then s[1..] else s;
    if |digits| > 0 && AllDigits(digits) then
      Num(if s[0] == '-' then -(DigitsValue(digits) as int) else DigitsValue(digits))
    else NaN
  }

  /** An unsigned literal split at its first `e` or `E`: the text before it,
      and the exponent after it (zero when there is none). */
  function SplitExponent(body: string): (p: (string, Number))
    ensures forall c :: c in p.0 ==> c in body
  {
    var e := FindEither(body, 'e', 'E');
    (body[..e], if e < |body| then ExponentValue(body[e + 1..]) else Num(0))
  }

  /** The text before the exponent split at its first point: the text before
      the point, and the text after it (empty when there is no point). */
  function SplitPoint(mantissa: string): (p: (string, string))
    ensures forall c :: c in p.0 + p.1 ==> c in mantissa
  {
    var d := FindEither(mantissa, '.', '.');
    (mantissa[..d], if d < |mantissa| then mantissa[d + 1..] else "")
  }

  /** The pieces of an unsigned number literal: whole digits, fraction
      digits and exponent. */
  function Pieces(body: string): (p: (string, string, Number))
    ensures forall c :: c in p.0 + p.1 ==> c in body
  {
    var (mantissa, exponent) := SplitExponent(body);
    var (whole, fraction) := SplitPoint(mantissa);
    (whole, fraction, exponent)
  }

  /** The value of a literal's pieces, negated when a minus sign preceded
      them: all the digits read as one whole number, scaled down by the
      number of fraction digits and up by the exponent, then rounded down. */
  function PiecesValue(whole: string, fraction: string, exponent: Number, negative: bool): (r: Number)
    ensures !negative && r.Num? ==> r.value >= 0
    ensures r.Num? ==> |whole + fraction| > 0 && AllDigits(whole + fraction)
  {
    if |whole + fraction| > 0 && AllDigits(whole + fraction) && exponent.Num? then
      var n := DigitsValue(whole + fraction);
      var scale := exponent.value - |fraction|;
      Num(if negative then -(CeilScaled(n, scale) as int) else FloorScaled(n, scale))
    else NaN
  }

  /** The value of an unsigned literal. */
  function UnsignedValue(body: string, negative: bool): (r: Number)
    ensures (forall i :: 0 <= i < |body| ==> !IsDigit(body[i])) ==> r == NaN
    ensures !negative && r.Num? ==> r.value >= 0
  {
    var p := Pieces(body);
    assert |p.0 + p.1| > 0 ==> (p.0 + p.1)[0] in body;
    PiecesValue(p.0, p.1, p.2, negative)
  }

  /** Number conversion of the age text: an optional sign, decimal digits with
      at most one decimal point and at least one digit, then an optional
      exponent. The value is rounded down to a whole number, which decides
      every comparison with a whole number the same way as the exact value.
      Empty text converts to zero. */
  function ToNumber(s: string): (r: Number)
    ensures s == "" ==> r == Num(0)
    ensures s != "" && (forall i :: 0 <= i < |s| ==> !IsDigit(s[i])) ==> r == NaN
    ensures s != "" && s[0] != '-' && r.Num? ==> r.value >= 0
  {
    if s == "" then Num(0)
    else if s[0] == '-' || s[0] == '+' then
      assert forall i :: 0 <= i < |s[1..]| ==> s[1..][i] == s[i + 1];
      UnsignedValue(s[1..], s[0] == '-')
    else UnsignedValue(s, false)
  }

  /** The decimal text of a natural number, as a number field holds it. */
  function Decimal(n: nat): (s: string)
    ensures |s| > 0 && AllDigits(s)
    ensures DigitsValue(s) == n
  {
    if n < 10 then [DigitChar(n)]
    else
      var front := Decimal(n / 10);
      var s := front + [DigitChar(n % 10)];
      assert s[..|s| - 1] == front;
      s
  }

  /** Searching past a prefix that holds neither character. */
  lemma {:induction false} FindEitherAppend(x: string, y: string, a: char, b: char)
    requires forall i :: 0 <= i < |x| ==> x[i] != a && x[i] != b
    ensures FindEither(x + y, a, b) == |x| + FindEither(y, a, b)
    decreases |x|
  {
    if |x| > 0 {
      assert (x + y)[0] == x[0];
      assert (x + y)[1..] == x[1..] + y;
      FindEitherAppend(x[1..], y, a, b);
      assert FindEither(x + y, a, b) == 1 + FindEither(x[1..] + y, a, b);
    } else {
      assert x + y == y;
    }
  }

  /** Text without an exponent mark, followed by an exponent, splits back
      into the two. */
  lemma {:induction false} ExponentSplitOf(mantissa: string, exp: string)
    requires forall i :: 0 <= i < |mantissa| ==> mantissa[i] != 'e' && mantissa[i] != 'E'
    requires exp == "" || exp[0] == 'e' || exp[0] == 'E'
    ensures SplitExponent(mantissa + exp) == (mantissa, if exp == "" then Num(0) else ExponentValue(exp[1..]))
  {
    var body := mantissa + exp;
    assert FindEither(exp, 'e', 'E') == 0;
    FindEitherAppend(mantissa, exp, 'e', 'E');
    assert body[..|mantissa|] == mantissa;
    if exp != "" {
      assert body[|mantissa| + 1..] == exp[1..];
    }
  }

  /** Whole digits, an optional point and fraction digits split back into
      the whole and the fraction digits. */
  lemma {:induction false} PointSplitOf(w: string, point: string, f: string)
    requires point == "." || (point == "" && f == "")
    requires AllDigits(w)
    ensures SplitPoint(w + point + f) == (w, f)
  {
    var mantissa := w + point + f;
    assert mantissa == w + (point + f);
    assert FindEither(point + f, '.', '.') == 0 || point + f == "";
    FindEitherAppend(w, point + f, '.', '.');
    assert mantissa[..|w|] == w;
    if point == "." {
      assert mantissa[|w| + 1..] == f;
    }
  }

  /** The pieces of a literal built from whole digits, an optional point
      with fraction digits, and an optional exponent. */
  lemma {:induction false} PiecesOf(body: string, w: string, point: string, f: string, exp: string)
    requires body == w + point + f + exp
    requires point == "." || (point == "" && f == "")
    requires AllDigits(w) && AllDigits(f)
    requires exp == "" || exp[0] == 'e' || exp[0] == 'E'
    ensures Pieces(body) == (w, f, if exp == "" then Num(0) else ExponentValue(exp[1..]))
    ensures |w| + |f| > 0 ==> |body| > 0 && (IsDigit(body[0]) || body[0] == '.')
  {
    var mantissa := w + point + f;
    assert body == mantissa + exp;
    assert forall i :: 0 <= i < |mantissa| ==> IsDigit(mantissa[i]) || mantissa[i] == '.' by {
      forall i | 0 <= i < |mantissa| ensures IsDigit(mantissa[i]) || mantissa[i] == '.' {
        if i >= |w| + |point| { assert mantissa[i] == f[i - |w| - |point|]; }
      }
    }
    ExponentSplitOf(mantissa, exp);
    PointSplitOf(w, point, f);
    if |w| + |f| > 0 {
      assert body[0] == mantissa[0];
    }
  }

  /** How the conversion reads an unsigned literal built from its parts:
      whole digits, an optional point with fraction digits, an optional
      exponent. All the digits read as one whole number, scaled down by the
      fraction length and up by the exponent, rounded down (rounded up, then
      negated, after a minus sign). */
  lemma {:induction false} LiteralValue(body: string, negative: bool, w: string, point: string, f: string, exp: string, k: int)
    requires body == w + point + f + exp
    requires point == "." || (point == "" && f == "")
    requires AllDigits(w) && AllDigits(f) && |w| + |f| > 0
    requires exp == "" ==> k == 0
    requires exp != "" ==> (exp[0] == 'e' || exp[0] == 'E') && ExponentValue(exp[1..]) == Num(k)
    ensures |body| > 0 && (IsDigit(body[0]) || body[0] == '.')
    ensures AllDigits(w + f)
    ensures UnsignedValue(body, negative) ==
      Num(if negative then -(CeilScaled(DigitsValue(w + f), k - |f|) as int)
          else FloorScaled(DigitsValue(w + f), k - |f|))
  {
    PiecesOf(body, w, point, f, exp);
    DigitsAppend(w, f);
    UnsignedOfPieces(body, negative, w, f, k);
    PiecesValueOf(w, f, k, negative);
  }

  /** Text that starts with a digit or a point is read as an unsigned
      literal. */
  lemma UnsignedText(body: string)
    requires |body| > 0 && (IsDigit(body[0]) || body[0] == '.')
    ensures ToNumber(body) == UnsignedValue(body, false)
  {
  }

  /** A minus sign in front of an unsigned literal makes the conversion
      round up and negate. */
  lemma MinusText(body: string)
    requires |body| > 0 && (IsDigit(body[0]) || body[0] == '.')
    ensures ToNumber("-" + body) == UnsignedValue(body, true)
  {
    assert ("-" + body)[0] == '-';
    assert ("-" + body)[1..] == body;
  }

  /** A plus sign in front of an unsigned literal changes nothing. */
  lemma PlusText(body: string)
    requires |body| > 0 && (IsDigit(body[0]) || body[0] == '.')
    ensures ToNumber("+" + body) == ToNumber(body)
  {
    assert ("+" + body)[0] == '+';
    assert ("+" + body)[1..] == body;
  }

  lemma DigitsAppend(a: string, b: string)
    requires AllDigits(a) && AllDigits(b)
    ensures AllDigits(a + b)
  {
    forall i | 0 <= i < |a + b| ensures IsDigit((a + b)[i]) {
      if i >= |a| { assert (a + b)[i] == b[i - |a|]; }
    }
  }

  /** The value an unsigned literal converts to is the value of its pieces. */
  lemma UnsignedOfPieces(body: string, negative: bool, w: string, f: string, k: int)
    requires Pieces(body) == (w, f, Num(k))
    ensures UnsignedValue(body, negative) == PiecesValue(w, f, Num(k), negative)
  {
  }

  /** The value of well-formed pieces. */
  lemma PiecesValueOf(w: string, f: string, k: int, negative: bool)
    requires |w + f| > 0 && AllDigits(w + f)
    ensures PiecesValue(w, f, Num(k), negative) ==
      Num(if negative then -(CeilScaled(DigitsValue(w + f), k - |f|) as int)
          else FloorScaled(DigitsValue(w + f), k - |f|))
  {
  }

  /** Appending or prepending nothing, and regrouping a signed literal. */
  lemma Regroup(x: string, y: string, z: string)
    ensures x + "" == x && x + "" + "" + "" == x
    ensures "-" + x + y + z == "-" + (x + y + z)
  {
  }

  /** A run of digits converts to its value. */
  lemma {:induction false} WholeValue(w: string)
    requires |w| > 0 && AllDigits(w)
    ensures ToNumber(w) == Num(DigitsValue(w))
  {
    Regroup(w, "", "");
    LiteralValue(w, false, w, "", "", "", 0);
    UnsignedText(w);
    assert FloorScaled(DigitsValue(w), 0) == DigitsValue(w);
  }

  /** After a minus sign, a run of digits converts to minus its value. */
  lemma {:induction false} NegativeWholeValue(w: string)
    requires |w| > 0 && AllDigits(w)
    ensures ToNumber("-" + w) == Num(-(DigitsValue(w) as int))
  {
    Regroup(w, "", "");
    LiteralValue(w, true, w, "", "", "", 0);
    MinusText(w);
    assert CeilScaled(DigitsValue(w), 0) == DigitsValue(w);
  }

  /** Reading back the decimal text of a number gives the number. */
  lemma DecimalRoundTrip(n: nat)
    ensures ToNumber(Decimal(n)) == Num(n)
    ensures ToNumber("-" + Decimal(n)) == Num(-(n as int))
  {
    WholeValue(Decimal(n));
    NegativeWholeValue(Decimal(n));
  }

  /** Digits written after others shift the earlier ones up by their count. */
  lemma {:induction false} DigitsValueAppend(a: string, b: string)
    requires AllDigits(a) && AllDigits(b)
    ensures AllDigits(a + b)
    ensures DigitsValue(a + b) == Scale(DigitsValue(a), |b|) + DigitsValue(b)
    decreases |b|
  {
    DigitsAppend(a, b);
    if |b| == 0 {
      assert a + b == a;
    } else {
      var front := b[..|b| - 1];
      assert (a + b)[..|a + b| - 1] == a + front;
      assert (a + b)[|a + b| - 1] == b[|b| - 1];
      DigitsValueAppend(a, front);
    }
  }

  /** A run of k digits is worth less than ten to the power k. */
  lemma {:induction false} DigitsValueBound(s: string)
    requires AllDigits(s)
    ensures DigitsValue(s) < Scale(1, |s|)
    decreases |s|
  {
    if |s| > 0 {
      DigitsValueBound(s[..|s| - 1]);
    }
  }

  /** Rounding down after appending k digits worth less than ten to the k
      gives back the number in front. */
  lemma {:induction false} ShrinkDownExact(n: nat, r: nat, k: nat)
    requires r < Scale(1, k)
    ensures ShrinkDown(Scale(n, k) + r, k) == n
  {
    if k > 0 {
      assert (Scale(n, k) + r) / 10 == Scale(n, k - 1) + r / 10;
      ShrinkDownExact(n, r / 10, k - 1);
    }
  }

  /** Rounding up after appending k digits gives the number in front, plus
      one when any appended digit is not zero. */
  lemma {:induction false} ShrinkUpExact(n: nat, r: nat, k: nat)
    requires r <= Scale(1, k)
    ensures ShrinkUp(Scale(n, k) + r, k) == n + (if r > 0 then 1 else 0)
  {
    if k > 0 {
      assert (Scale(n, k) + r + 9) / 10 == Scale(n, k - 1) + (r + 9) / 10;
      ShrinkUpExact(n, (r + 9) / 10, k - 1);
    }
  }

  /** Scaling the digits of `w.f` down by the length of `f` gives the value
      of `w` when rounding down, and one more when rounding up unless `f` is
      all zeros. */
  lemma FractionScaled(w: string, f: string)
    requires AllDigits(w) && AllDigits(f)
    ensures AllDigits(w + f)
    ensures FloorScaled(DigitsValue(w + f), 0 - |f|) == DigitsValue(w)
    ensures CeilScaled(DigitsValue(w + f), 0 - |f|) == DigitsValue(w) + (if DigitsValue(f) > 0 then 1 else 0)
  {
    DigitsValueAppend(w, f);
    DigitsValueBound(f);
    ShrinkDownExact(DigitsValue(w), DigitsValue(f), |f|);
    ShrinkUpExact(DigitsValue(w), DigitsValue(f), |f|);
  }

  /** Whole digits followed by a point and fraction digits convert to the
      value of the whole digits. */
  lemma {:induction false} FractionalValue(w: string, f: string)
    requires |w| > 0 && AllDigits(w) && |f| > 0 && AllDigits(f)
    ensures ToNumber(w + "." + f) == Num(DigitsValue(w))
  {
    var body := w + "." + f;
    DigitsAppend(w, f);
    var n := DigitsValue(w + f);
    assert UnsignedValue(body, false) == Num(FloorScaled(n, 0 - |f|)) by {
      Regroup(body, "", "");
      LiteralValue(body, false, w, ".", f, "", 0);
    }
    assert ToNumber(body) == UnsignedValue(body, false) by {
      PiecesOf(body, w, ".", f, "");
      UnsignedText(body);
    }
    assert FloorScaled(n, 0 - |f|) == DigitsValue(w) by {
      FractionScaled(w, f);
    }
  }


  /** With a minus sign in front, they convert to the next lower whole
      number unless every fraction digit is zero. */
  lemma {:induction false} NegativeFractionalValue(w: string, f: string)
    requires |w| > 0 && AllDigits(w) && |f| > 0 && AllDigits(f)
    ensures ToNumber("-" + w + "." + f) ==
      Num(-(DigitsValue(w) as int) - (if DigitsValue(f) > 0 then 1 else 0))
  {
    var body := w + "." + f;
    DigitsAppend(w, f);
    var n := DigitsValue(w + f);
    assert UnsignedValue(body, true) == Num(-(CeilScaled(n, 0 - |f|) as int)) by {
      Regroup(body, "", "");
      LiteralValue(body, true, w, ".", f, "", 0);
    }
    assert ToNumber("-" + w + "." + f) == UnsignedValue(body, true) by {
      Regroup(body, "", "");
      Regroup(w, ".", f);
      PiecesOf(body, w, ".", f, "");
      MinusText(body);
    }
    assert CeilScaled(n, 0 - |f|) == DigitsValue(w) + (if DigitsValue(f) > 0 then 1 else 0) by {
      FractionScaled(w, f);
    }
  }


  /** The comparison `Number(age) < 18`: false for NaN. */
  predicate BelowMinimum(n: Number): (below: bool)
    ensures n == NaN ==> !below
    ensures n.Num? ==> (below <==> n.value < MinimumAge)
  {
    n.Num? && n.value < MinimumAge
  }

  /** The stored list, with a missing or unparseable value read as empty. */
  function GetWaitlist(store: Store): (entries: seq<Entry>)
    ensures store.Saved? ==> entries == store.entries
    ensures store == Missing || store == Unparseable ==> entries == []
  {
    match store
    case Saved(entries) => entries
    case _ => []
  }

  /** Appends an entry to the stored list and saves it back; whatever could
      not be read before is replaced. */
  function AddToWaitlist(store: Store, entry: Entry): (s: Store)
    ensures s.Saved?
    ensures |GetWaitlist(s)| == |GetWaitlist(store)| + 1
    ensures GetWaitlist(s)[|GetWaitlist(store)|] == entry
    ensures forall i :: 0 <= i < |GetWaitlist(store)| ==> GetWaitlist(s)[i] == GetWaitlist(store)[i]
  {
    Saved(GetWaitlist(store) + [entry])
  }

  /** A submission: the error is cleared, then an empty field is reported
      before the age is looked at, then an age below the minimum is reported;
      otherwise the entry is appended and the form marks itself submitted.
      A rejected submission leaves the store and the submitted flag alone. */
  function HandleSubmit(email: string, age: string, submitted: bool, store: Store): (r: FormState)
    ensures r.error == MissingFieldsError <==> email == "" || age == ""
    ensures r.error == UnderAgeError <==> email != "" && age != "" && BelowMinimum(ToNumber(age))
    ensures r.error == "" <==> email != "" && age != "" && !BelowMinimum(ToNumber(age))
    ensures r.error != "" ==> r.store == store && r.submitted == submitted
    ensures r.error == "" ==> r.submitted && GetWaitlist(r.store) == GetWaitlist(store) + [Entry(email, ToNumber(age))]
  {
    if email == "" || age == "" then FormState(MissingFieldsError, submitted, store)
    else if BelowMinimum(ToNumber(age)) then FormState(UnderAgeError, submitted, store)
    else FormState("", true, AddToWaitlist(store, Entry(email, ToNumber(age))))
  }

  /** With an email given, a whole-number age typed in decimal is accepted
      exactly when it is at least 18; 18 itself is accepted. */
  lemma AgeThreshold(email: string, age: nat, submitted: bool, store: Store)
    requires email != ""
    ensures HandleSubmit(email, Decimal(age), submitted, store).error == "" <==> age >= MinimumAge
  {
    DecimalRoundTrip(age);
  }

  /** With an email given, an age written with a decimal point is judged by
      its whole part: it is rejected as under age exactly when the whole part
      is below 18, and otherwise stored as that whole part. */
  lemma FractionalAgeThreshold(email: string, w: string, f: string, submitted: bool, store: Store)
    requires email != ""
    requires |w| > 0 && AllDigits(w) && |f| > 0 && AllDigits(f)
    ensures HandleSubmit(email, w + "." + f, submitted, store).error == UnderAgeError <==> DigitsValue(w) < MinimumAge
    ensures HandleSubmit(email, w + "." + f, submitted, store).error == "" ==>
      GetWaitlist(HandleSubmit(email, w + "." + f, submitted, store).store) ==
        GetWaitlist(store) + [Entry(email, Num(DigitsValue(w)))]
  {
    FractionalValue(w, f);
  }

  /** An age of 17.5 is rejected as under age. */
  lemma FractionalAgeExample(email: string, submitted: bool, store: Store)
    requires email != ""
    ensures HandleSubmit(email, "17.5", submitted, store).error == UnderAgeError
  {
    assert DigitsValue("17") == 17;
    assert "17" + "." + "5" == "17.5";
    FractionalAgeThreshold(email, "17", "5", submitted, store);
  }

  /** In exponent form, 1.7e1 converts to 17 and 1.8e1 to 18. */
  lemma ExponentAgeExamples()
    ensures ToNumber("1.7e1") == Num(17)
    ensures ToNumber("1.8e1") == Num(18)
  {
    assert ExponentValue("e1"[1..]) == Num(1) by {
      assert "e1"[1..] == "1" && DigitsValue("1") == 1;
    }
    assert "1.7e1" == "1" + "." + "7" + "e1";
    assert "1.8e1" == "1" + "." + "8" + "e1";
    assert DigitsValue("1" + "7") == 17 by { assert "1" + "7" == "17"; }
    assert DigitsValue("1" + "8") == 18 by { assert "1" + "8" == "18"; }
    LiteralValue("1.7e1", false, "1", ".", "7", "e1", 1);
    LiteralValue("1.8e1", false, "1", ".", "8", "e1", 1);
    UnsignedText("1.7e1");
    UnsignedText("1.8e1");
  }



  /** An age that does not convert to a number is not below the minimum, so
      it is accepted and stored as NaN. */
  lemma NonNumericAgeAccepted(email: string, age: string, submitted: bool, store: Store)
    requires email != "" && age != "" && ToNumber(age) == NaN
    ensures HandleSubmit(email, age, submitted, store).error == ""
    ensures GetWaitlist(HandleSubmit(email, age, submitted, store).store) == GetWaitlist(store) + [Entry(email, NaN)]
  {
  }

  /** A missing or unreadable stored list counts as empty: the first accepted
      submission saves a list holding just the new entry. */
  lemma UnreadableStoreStartsEmpty(email: string, age: string, submitted: bool, store: Store)
    requires store == Missing || store == Unparseable
    requires HandleSubmit(email, age, submitted, store).error == ""
    ensures HandleSubmit(email, age, submitted, store).store == Saved([Entry(email, ToNumber(age))])
  {
  }

  /** Every stored entry has an email and an age not known to be below 18. */
  predicate Eligible(entries: seq<Entry>)
  {
    forall i :: 0 <= i < |entries| ==> entries[i].email != "" && !BelowMinimum(entries[i].age)
  }

  /** Submissions keep the stored list eligible. */
  lemma SubmitKeepsEligible(email: string, age: string, submitted: bool, store: Store)
    requires Eligible(GetWaitlist(store))
    ensures Eligible(GetWaitlist(HandleSubmit(email, age, submitted, store).store))
  {
  }
}

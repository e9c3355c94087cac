/**
  The text classifier of `displayIPAddress`. The text is scanned with the
  format "%d.%d.%d.%d"; when all four conversions succeed, the first two
  fields select a category by an ordered decision list, otherwise the text is
  "Not Connected" (the placeholder "N/A" or the empty text) or of an
  "Invalid/Special format".

  The scanner models the C library's `%d` conversion as far as this format
  needs it: leading white space is skipped, one optional '+' or '-' sign is
  taken, then the longest run of decimal digits, at least one. The literal
  '.' between conversions must match the next byte exactly. Nothing bounds
  the number of digits or the value of a field, and nothing after the fourth
  field is looked at.
 */
module DottedQuad {
  import opened Bytes

  const Dot: byte := 46
  const Plus: byte := 43
  const Minus: byte := 45

  /** The placeholder text "N/A". */
  const NotAvailable: seq<byte> := [78, 47, 65]

  /** `isspace` in the "C" locale: space, '\t', '\n', '\v', '\f' and '\r'. */
  predicate IsSpace(b: byte) {
    b == Space || 9 <= b <= 13
  }

  predicate IsDigit(b: byte) {
    48 <= b <= 57
  }

  predicate AllDigits(ds: seq<byte>) {
    forall k | 0 <= k < |ds| :: IsDigit(ds[k])
  }

  /** `s` without its leading white space. */
  function SkipSpaces(s: seq<byte>): (t: seq<byte>)
    ensures t == [] || !IsSpace(t[0])
  {
    if s != [] && IsSpace(s[0]) then SkipSpaces(s[1..]) else s
  }

  /** The length of the run of digits that `s` starts with. */
  function DigitRun(s: seq<byte>): (n: nat)
    ensures n <= |s| && AllDigits(s[..n])
    ensures n == |s| || !IsDigit(s[n])
  {
    if s != [] && IsDigit(s[0]) then
      var n := 1 + DigitRun(s[1..]);
      assert s[..n] == [s[0]] + s[1..][..n - 1];
      n
    else 0
  }

  /** The value of a run of decimal digits, most significant digit first. */
  function DigitsValue(ds: seq<byte>): nat
    requires AllDigits(ds)
  {
    if ds == [] then 0
    else 10 * DigitsValue(ds[..|ds| - 1]) + (ds[|ds| - 1] - 48)
  }

  /** A successful `%d`: the value stored and the input left after the digits. */
  datatype Conversion = Conversion(value: int, rest: seq<byte>)

  /** One `%d` conversion at the start of `s`; None when no digit follows the
      white space and the optional sign (the conversion fails). */
  function ScanInt(s: seq<byte>): (c: Option<Conversion>)
    ensures c.Some? ==> c.value.rest == [] || !IsDigit(c.value.rest[0])
  {
    SignedInt(SkipSpaces(s))
  }

  /** The conversion once the white space is skipped: an optional sign, then
      the longest run of digits, at least one. */
  function SignedInt(t: seq<byte>): (c: Option<Conversion>)
    ensures c.Some? ==> c.value.rest == [] || !IsDigit(c.value.rest[0])
  {
    var negative := t != [] && t[0] == Minus;
    var u := if t != [] && (t[0] == Plus || t[0] == Minus) then t[1..] else t;
    var n := DigitRun(u);
    if n == 0 then None
    else
      var magnitude: int := DigitsValue(u[..n]);
      Some(Conversion(if negative then -magnitude else magnitude, u[n..]))
  }

  /** The fields stored by the remaining `count` conversions of
      "%d.%d.%d.%d" on the input `s`: scanning stops at the first conversion
      that fails or at the first separator that is not '.'. */
  function ScanFields(s: seq<byte>, count: nat): (fields: seq<int>)
    ensures |fields| <= count
    decreases count
  {
    if count == 0 then []
    else
      match ScanInt(s)
      case None => []
      case Some(c) =>
        if count > 1 && c.rest != [] && c.rest[0] == Dot then [c.value] + ScanFields(c.rest[1..], count - 1)
        else [c.value]
  }

  /** `sscanf(text, "%d.%d.%d.%d", ...)`: the fields it stores, in order; its
      return value is four exactly when all four are stored. */
  function Scan(text: seq<byte>): (fields: seq<int>)
    ensures |fields| <= 4
  {
    ScanFields(text, 4)
  }

  /** The decimal digits of `n`, without leading zeros. */
  function Decimal(n: nat): (ds: seq<byte>)
    ensures |ds| > 0 && AllDigits(ds)
    ensures DigitsValue(ds) == n
    ensures n > 0 ==> ds[0] != 48
  {
    if n < 10 then [48 + n]
    else
      var ds := Decimal(n / 10) + [48 + n % 10];
      assert ds[..|ds| - 1] == Decimal(n / 10);
      ds
  }

  /** The dotted-decimal text "a.b.c.d". */
  function Quad(a: nat, b: nat, c: nat, d: nat): seq<byte> {
    Decimal(a) + [Dot] + Decimal(b) + [Dot] + Decimal(c) + [Dot] + Decimal(d)
  }

  datatype Category =
    | PrivateClassC
    | PrivateClassA
    | PrivateClassB
    | Loopback
    | Public
    | NotConnected
    | InvalidFormat

  /** The decision list over the first two fields, tried in the source's
      order: 192.168, then 10, then 172.16-31, then 127, else public. */
  function ClassifyFields(first: int, second: int): Category {
    if first == 192 && second == 168 then PrivateClassC
    else if first == 10 then PrivateClassA
    else if first == 172 && 16 <= second <= 31 then PrivateClassB
    else if first == 127 then Loopback
    else Public
  }

  /** The category `displayIPAddress` prints for `text`. */
  function Classify(text: seq<byte>): (c: Category)
    ensures c == NotConnected ==> text == NotAvailable || text == []
    ensures c == InvalidFormat ==> |Scan(text)| < 4 && text != NotAvailable && text != []
  {
    var fields := Scan(text);
    if |fields| == 4 then ClassifyFields(fields[0], fields[1])
    else if text == NotAvailable || |text| == 0 then NotConnected
    else InvalidFormat
  }

  /** Each category of the decision list holds exactly when its own rule
      holds: the first fields named by the rules are distinct, so no rule
      shadows a later one, and no octet is checked against 0..255. */
  lemma DecisionListExact(first: int, second: int)
    ensures ClassifyFields(first, second) == PrivateClassC <==> first == 192 && second == 168
    ensures ClassifyFields(first, second) == PrivateClassA <==> first == 10
    ensures ClassifyFields(first, second) == PrivateClassB <==> first == 172 && 16 <= second <= 31
    ensures ClassifyFields(first, second) == Loopback <==> first == 127
    ensures ClassifyFields(first, second) == Public <==>
              first !in {10, 127} && !(first == 192 && second == 168) && !(first == 172 && 16 <= second <= 31)
    ensures ClassifyFields(first, second) !in {NotConnected, InvalidFormat}
  {
  }

  /** One field as it may appear in the text: white space, an optional sign
      and a non-empty run of decimal digits, leading zeros allowed. */
  datatype FieldText = FieldText(spaces: seq<byte>, sign: seq<byte>, digits: seq<byte>)

  predicate WellFormed(f: FieldText) {
    && (forall k | 0 <= k < |f.spaces| :: IsSpace(f.spaces[k]))
    && (f.sign == [] || f.sign == [Plus] || f.sign == [Minus])
    && |f.digits| > 0 && AllDigits(f.digits)
  }

  function FieldBytes(f: FieldText): seq<byte> {
    f.spaces + f.sign + f.digits
  }

  function FieldValue(f: FieldText): int
    requires WellFormed(f)
  {
    var magnitude: int := DigitsValue(f.digits);
    if f.sign == [Minus] then -magnitude else magnitude
  }

  /** The field "n" written by `Decimal`, with no space and no sign. */
  function PlainField(n: nat): (f: FieldText)
    ensures WellFormed(f) && FieldBytes(f) == Decimal(n) && FieldValue(f) == n
  {
    var f := FieldText([], [], Decimal(n));
    assert FieldBytes(f) == Decimal(n);
    f
  }

  /** White space at the start of `ws + t` is skipped up to `t`. */
  lemma {:induction false} SkipSpacesOver(ws: seq<byte>, t: seq<byte>)
    requires forall k | 0 <= k < |ws| :: IsSpace(ws[k])
    requires t == [] || !IsSpace(t[0])
    ensures SkipSpaces(ws + t) == t
  {
    if ws == [] {
      assert ws + t == t;
    } else {
      assert (ws + t)[1..] == ws[1..] + t;
      SkipSpacesOver(ws[1..], t);
    }
  }

  /** The digit run at the start of `ds + y` is `ds` when `y` does not start
      with a digit. */
  lemma {:induction false} DigitRunOf(ds: seq<byte>, y: seq<byte>)
    requires AllDigits(ds)
    requires y == [] || !IsDigit(y[0])
    ensures DigitRun(ds + y) == |ds|
  {
    if ds == [] {
      assert ds + y == y;
    } else {
      assert (ds + y)[0] == ds[0];
      assert (ds + y)[1..] == ds[1..] + y;
      DigitRunOf(ds[1..], y);
    }
  }

  /** `%d` on an optional sign and a digit run reads the signed value of
      the run and leaves what follows it, when that does not start with a
      digit. */
  lemma {:induction false} ScanIntOfSigned(sign: seq<byte>, ds: seq<byte>, y: seq<byte>)
    requires sign == [] || sign == [Plus] || sign == [Minus]
    requires |ds| > 0 && AllDigits(ds)
    requires y == [] || !IsDigit(y[0])
    ensures ScanInt(sign + (ds + y))
            == Some(Conversion(if sign == [Minus] then -(DigitsValue(ds) as int) else DigitsValue(ds), y))
  {
    var u := ds + y;
    DigitRunOf(ds, y);
    assert u[0] == ds[0] && u[..|ds|] == ds && u[|ds|..] == y;
    if sign == [] {
      assert sign + u == u;
      assert SkipSpaces(u) == u;
    } else {
      var t := sign + u;
      assert t[0] == sign[0] && t[1..] == u;
      assert SkipSpaces(t) == t;
    }
  }

  /** `%d` skips leading white space. */
  lemma {:induction false} ScanIntPastSpaces(ws: seq<byte>, t: seq<byte>)
    requires forall k | 0 <= k < |ws| :: IsSpace(ws[k])
    requires t == [] || !IsSpace(t[0])
    ensures ScanInt(ws + t) == ScanInt(t)
  {
    SkipSpacesOver(ws, t);
    SkipSpacesOver([], t);
    assert [] + t == t;
  }

  /** `%d` reads a well-formed field back and leaves what follows it, when
      that does not start with a digit. */
  lemma {:induction false} ScanIntOfField(f: FieldText, y: seq<byte>)
    requires WellFormed(f)
    requires y == [] || !IsDigit(y[0])
    ensures ScanInt(FieldBytes(f) + y) == Some(Conversion(FieldValue(f), y))
  {
    var t := f.sign + (f.digits + y);
    assert t[0] == if f.sign == [] then f.digits[0] else f.sign[0];
    calc {
      ScanInt(FieldBytes(f) + y);
      { assert FieldBytes(f) + y == f.spaces + t; }
      ScanInt(f.spaces + t);
      { ScanIntPastSpaces(f.spaces, t); }
      ScanInt(t);
      { ScanIntOfSigned(f.sign, f.digits, y); }
      Some(Conversion(FieldValue(f), y));
    }
  }

  /** A field followed by '.' is stored, and scanning goes on after the dot. */
  lemma {:induction false} FieldThenDot(f: FieldText, z: seq<byte>, count: nat)
    requires WellFormed(f)
    requires count > 1
    ensures ScanFields(FieldBytes(f) + ([Dot] + z), count) == [FieldValue(f)] + ScanFields(z, count - 1)
  {
    ScanIntOfField(f, [Dot] + z);
    assert ([Dot] + z)[1..] == z;
  }

  /** The last field is stored when no digit follows it. */
  lemma {:induction false} LastField(f: FieldText, rest: seq<byte>)
    requires WellFormed(f)
    requires rest == [] || !IsDigit(rest[0])
    ensures ScanFields(FieldBytes(f) + rest, 1) == [FieldValue(f)]
  {
    ScanIntOfField(f, rest);
  }

  /** The last two of four fields: both are stored. */
  lemma {:induction false} LastTwoOfFour(f3: FieldText, f4: FieldText, rest: seq<byte>)
    requires WellFormed(f3) && WellFormed(f4)
    requires rest == [] || !IsDigit(rest[0])
    ensures ScanFields(FieldBytes(f3) + ([Dot] + (FieldBytes(f4) + rest)), 2) == [FieldValue(f3), FieldValue(f4)]
  {
    FieldThenDot(f3, FieldBytes(f4) + rest, 2);
    LastField(f4, rest);
  }

  /** The last three of four fields: all three are stored. */
  lemma {:induction false} LastThreeOfFour(f2: FieldText, f3: FieldText, f4: FieldText, rest: seq<byte>)
    requires WellFormed(f2) && WellFormed(f3) && WellFormed(f4)
    requires rest == [] || !IsDigit(rest[0])
    ensures ScanFields(FieldBytes(f2) + ([Dot] + (FieldBytes(f3) + ([Dot] + (FieldBytes(f4) + rest)))), 3)
            == [FieldValue(f2), FieldValue(f3), FieldValue(f4)]
  {
    FieldThenDot(f2, FieldBytes(f3) + ([Dot] + (FieldBytes(f4) + rest)), 3);
    LastTwoOfFour(f3, f4, rest);
  }

  /** Four well-formed fields joined by '.' scan back to their values,
      whatever follows the fourth field as long as it does not start with a
      digit: white space before a field, a sign and leading zeros are
      accepted, and no field is checked against a range. */
  lemma {:induction false} ScanFieldsRoundTrip(f1: FieldText, f2: FieldText, f3: FieldText, f4: FieldText, rest: seq<byte>)
    requires WellFormed(f1) && WellFormed(f2) && WellFormed(f3) && WellFormed(f4)
    requires rest == [] || !IsDigit(rest[0])
    ensures Scan(FieldBytes(f1) + [Dot] + FieldBytes(f2) + [Dot] + FieldBytes(f3) + [Dot] + FieldBytes(f4) + rest)
            == [FieldValue(f1), FieldValue(f2), FieldValue(f3), FieldValue(f4)]
  {
    var z3 := FieldBytes(f4) + rest;
    var z2 := FieldBytes(f3) + ([Dot] + z3);
    var z1 := FieldBytes(f2) + ([Dot] + z2);
    var text := FieldBytes(f1) + [Dot] + FieldBytes(f2) + [Dot] + FieldBytes(f3) + [Dot] + FieldBytes(f4) + rest;
    assert text == FieldBytes(f1) + ([Dot] + z1);
    calc {
      Scan(text);
      ScanFields(FieldBytes(f1) + ([Dot] + z1), 4);
      { FieldThenDot(f1, z1, 4); }
      [FieldValue(f1)] + ScanFields(z1, 3);
      { LastThreeOfFour(f2, f3, f4, rest); }
      [FieldValue(f1)] + [FieldValue(f2), FieldValue(f3), FieldValue(f4)];
    }
  }

  /** Formatting four naturals as "a.b.c.d" and scanning the text gives them
      back, whatever follows the fourth field as long as it does not start
      with a digit. */
  lemma {:induction false} ScanQuadRoundTrip(a: nat, b: nat, c: nat, d: nat, rest: seq<byte>)
    requires rest == [] || !IsDigit(rest[0])
    ensures Scan(Quad(a, b, c, d) + rest) == [a, b, c, d]
  {
    var f1, f2, f3, f4 := PlainField(a), PlainField(b), PlainField(c), PlainField(d);
    var text := Quad(a, b, c, d) + rest;
    assert text == FieldBytes(f1) + [Dot] + FieldBytes(f2) + [Dot] + FieldBytes(f3) + [Dot] + FieldBytes(f4) + rest;
    ScanFieldsRoundTrip(f1, f2, f3, f4, rest);
    assert Scan(text) == [a, b, c, d];
  }

  /** Any text is a run of white space followed by what `SkipSpaces` leaves. */
  lemma {:induction false} SkipSpacesSplit(s: seq<byte>) returns (ws: seq<byte>)
    ensures forall k | 0 <= k < |ws| :: IsSpace(ws[k])
    ensures s == ws + SkipSpaces(s)
    decreases |s|
  {
    if s != [] && IsSpace(s[0]) {
      var w := SkipSpacesSplit(s[1..]);
      ws := [s[0]] + w;
      assert s == [s[0]] + s[1..];
    } else {
      ws := [];
    }
  }

  /** What a successful conversion after the white space consumed: an
      optional sign and a non-empty digit run, before the input it left. */
  lemma {:induction false} SignedIntParts(t: seq<byte>) returns (sign: seq<byte>, ds: seq<byte>)
    requires SignedInt(t).Some?
    ensures sign == [] || sign == [Plus] || sign == [Minus]
    ensures |ds| > 0 && AllDigits(ds)
    ensures t == sign + (ds + SignedInt(t).value.rest)
    ensures SignedInt(t).value.value == if sign == [Minus] then -(DigitsValue(ds) as int) else DigitsValue(ds)
  {
    var u;
    if t != [] && (t[0] == Plus || t[0] == Minus) {
      sign, u := [t[0]], t[1..];
      assert t == sign + u;
    } else {
      sign, u := [], t;
      assert t == sign + u;
    }
    var n := DigitRun(u);
    ds := u[..n];
    assert u == ds + u[n..];
  }

  /** What a successful `%d` consumed: white space, an optional sign and a
      non-empty digit run, in that order, before the input it left. */
  lemma {:induction false} ScanIntParts(s: seq<byte>) returns (ws: seq<byte>, sign: seq<byte>, ds: seq<byte>)
    requires ScanInt(s).Some?
    ensures forall k | 0 <= k < |ws| :: IsSpace(ws[k])
    ensures sign == [] || sign == [Plus] || sign == [Minus]
    ensures |ds| > 0 && AllDigits(ds)
    ensures s == ws + (sign + (ds + ScanInt(s).value.rest))
    ensures ScanInt(s).value.value == if sign == [Minus] then -(DigitsValue(ds) as int) else DigitsValue(ds)
  {
    ws := SkipSpacesSplit(s);
    sign, ds := SignedIntParts(SkipSpaces(s));
  }

  /** The converse of ScanIntOfField: a successful `%d` consumed a
      well-formed field (white space, an optional sign, a digit run) whose
      value it returns, and left the input after it. */
  lemma {:induction false} ScanIntSound(s: seq<byte>) returns (f: FieldText)
    requires ScanInt(s).Some?
    ensures WellFormed(f)
    ensures s == FieldBytes(f) + ScanInt(s).value.rest
    ensures FieldValue(f) == ScanInt(s).value.value
  {
    var ws, sign, ds := ScanIntParts(s);
    f := FieldText(ws, sign, ds);
    ConcatFour(ws, sign, ds, ScanInt(s).value.rest);
  }

  lemma ConcatFour(a: seq<byte>, b: seq<byte>, c: seq<byte>, d: seq<byte>)
    ensures a + (b + (c + d)) == a + b + c + d
  {
  }

  /** A text that starts with a well-formed field gives a successful `%d`,
      whatever follows the field. */
  lemma {:induction false} ScanIntOfFieldPrefix(f: FieldText, y: seq<byte>)
    requires WellFormed(f)
    ensures ScanInt(FieldBytes(f) + y).Some?
  {
    var t := f.sign + (f.digits + y);
    assert FieldBytes(f) + y == f.spaces + t;
    assert t[0] == if f.sign == [] then f.digits[0] else f.sign[0];
    SkipSpacesOver(f.spaces, t);
    var u := f.digits + y;
    assert u[0] == f.digits[0];
    assert f.sign != [] ==> t[1..] == u;
    assert f.sign == [] ==> t == u;
  }

  /** `%d` fails exactly when the input does not start with a well-formed
      field: no digit follows the white space and the optional sign. */
  lemma ScanIntFailsIff(s: seq<byte>)
    ensures ScanInt(s).None? <==>
              forall f: FieldText, y: seq<byte> | WellFormed(f) :: s != FieldBytes(f) + y
  {
    if ScanInt(s).Some? {
      var f := ScanIntSound(s);
    } else {
      forall f: FieldText, y: seq<byte> | WellFormed(f)
        ensures s != FieldBytes(f) + y
      {
        ScanIntOfFieldPrefix(f, y);
      }
    }
  }

  /** When at least two of the remaining conversions store a field, the
      first field is a well-formed field followed by '.', and the others are
      stored by the conversions after the dot. */
  lemma {:induction false} ScanFieldsStep(s: seq<byte>, count: nat) returns (f: FieldText, z: seq<byte>)
    requires count > 1 && |ScanFields(s, count)| > 1
    ensures WellFormed(f) && s == FieldBytes(f) + ([Dot] + z)
    ensures ScanFields(s, count) == [FieldValue(f)] + ScanFields(z, count - 1)
  {
    var c := ScanInt(s).value;
    f := ScanIntSound(s);
    z := c.rest[1..];
    assert c.rest == [Dot] + z;
  }

  /** When a remaining conversion stores a field, the input starts with a
      well-formed field of that value, followed by no digit. */
  lemma {:induction false} ScanFieldsFirst(s: seq<byte>, count: nat) returns (f: FieldText, rest: seq<byte>)
    requires count > 0 && |ScanFields(s, count)| > 0
    ensures WellFormed(f) && s == FieldBytes(f) + rest
    ensures rest == [] || !IsDigit(rest[0])
    ensures ScanFields(s, count)[0] == FieldValue(f)
  {
    f := ScanIntSound(s);
    rest := ScanInt(s).value.rest;
  }

  /** The last two of four fields, when both are stored. */
  lemma {:induction false} LastTwoSound(z: seq<byte>) returns (f3: FieldText, f4: FieldText, rest: seq<byte>)
    requires |ScanFields(z, 2)| == 2
    ensures WellFormed(f3) && WellFormed(f4)
    ensures rest == [] || !IsDigit(rest[0])
    ensures z == FieldBytes(f3) + ([Dot] + (FieldBytes(f4) + rest))
    ensures ScanFields(z, 2) == [FieldValue(f3), FieldValue(f4)]
  {
    var z3;
    f3, z3 := ScanFieldsStep(z, 2);
    f4, rest := ScanFieldsFirst(z3, 1);
  }

  /** The last three of four fields, when all three are stored. */
  lemma {:induction false} LastThreeSound(z: seq<byte>)
    returns (f2: FieldText, f3: FieldText, f4: FieldText, rest: seq<byte>)
    requires |ScanFields(z, 3)| == 3
    ensures WellFormed(f2) && WellFormed(f3) && WellFormed(f4)
    ensures rest == [] || !IsDigit(rest[0])
    ensures z == FieldBytes(f2) + ([Dot] + (FieldBytes(f3) + ([Dot] + (FieldBytes(f4) + rest))))
    ensures ScanFields(z, 3) == [FieldValue(f2), FieldValue(f3), FieldValue(f4)]
  {
    var z2;
    f2, z2 := ScanFieldsStep(z, 3);
    f3, f4, rest := LastTwoSound(z2);
  }

  /** Four fields joined by '.', regrouped. */
  lemma JoinFour(a: seq<byte>, b: seq<byte>, c: seq<byte>, d: seq<byte>, rest: seq<byte>)
    ensures a + ([Dot] + (b + ([Dot] + (c + ([Dot] + (d + rest))))))
            == a + [Dot] + b + [Dot] + c + [Dot] + d + rest
  {
  }

  /** The converse of ScanFieldsRoundTrip: `sscanf` stores four fields only
      for a text that starts with four well-formed fields joined by '.' and
      followed by no digit, and the fields stored are their values. */
  lemma {:induction false} ScanQuadSound(text: seq<byte>)
    returns (f1: FieldText, f2: FieldText, f3: FieldText, f4: FieldText, rest: seq<byte>)
    requires |Scan(text)| == 4
    ensures WellFormed(f1) && WellFormed(f2) && WellFormed(f3) && WellFormed(f4)
    ensures rest == [] || !IsDigit(rest[0])
    ensures text == FieldBytes(f1) + [Dot] + FieldBytes(f2) + [Dot] + FieldBytes(f3) + [Dot] + FieldBytes(f4) + rest
    ensures Scan(text) == [FieldValue(f1), FieldValue(f2), FieldValue(f3), FieldValue(f4)]
  {
    var z1;
    f1, z1 := ScanFieldsStep(text, 4);
    f2, f3, f4, rest := LastThreeSound(z1);
    JoinFour(FieldBytes(f1), FieldBytes(f2), FieldBytes(f3), FieldBytes(f4), rest);
  }

  /** The "Invalid/Special format" branch: a text that is neither "N/A" nor
      empty and does not start with four well-formed fields joined by '.' is
      of an invalid format. */
  lemma NoQuadIsInvalid(text: seq<byte>)
    requires text != NotAvailable && text != []
    requires forall f1: FieldText, f2: FieldText, f3: FieldText, f4: FieldText, rest: seq<byte>
               | WellFormed(f1) && WellFormed(f2) && WellFormed(f3) && WellFormed(f4)
               :: text != FieldBytes(f1) + [Dot] + FieldBytes(f2) + [Dot] + FieldBytes(f3) + [Dot] + FieldBytes(f4) + rest
    ensures Classify(text) == InvalidFormat
  {
    if |Scan(text)| == 4 {
      var f1, f2, f3, f4, rest := ScanQuadSound(text);
      assert false;
    }
  }

  /** A text that starts with a dotted quad is classified by its first two
      fields alone, without any range check on them. */
  lemma {:induction false} QuadClassifiedByFirstTwoFields(a: nat, b: nat, c: nat, d: nat, rest: seq<byte>)
    requires rest == [] || !IsDigit(rest[0])
    ensures Classify(Quad(a, b, c, d) + rest) == ClassifyFields(a, b)
  {
    ScanQuadRoundTrip(a, b, c, d, rest);
  }

  /** A text that is exactly a dotted quad is classified by its first two
      fields. */
  lemma {:induction false} QuadClassified(a: nat, b: nat, c: nat, d: nat)
    ensures Classify(Quad(a, b, c, d)) == ClassifyFields(a, b)
  {
    QuadClassifiedByFirstTwoFields(a, b, c, d, []);
    assert Quad(a, b, c, d) + [] == Quad(a, b, c, d);
  }

  /** Octets outside 0..255 are not rejected: a quad whose first field is
      above 255 is public, "300.1.2.3" for one ... */
  lemma NoOctetRangeCheck(a: nat, b: nat, c: nat, d: nat)
    requires a > 255
    ensures Classify(Quad(a, b, c, d)) == Public
  {
    QuadClassified(a, b, c, d);
  }

  /** ... and a quad starting with 10 is private class A whatever its other
      fields, "10.999.999.999" for one. */
  lemma OversizedOctetsClassA(b: nat, c: nat, d: nat)
    ensures Classify(Quad(10, b, c, d)) == PrivateClassA
  {
    QuadClassified(10, b, c, d);
  }

  /** "192.168.1.10" is private class C. */
  lemma ClassCScenario()
    ensures Classify(Ascii("192.168.1.10")) == PrivateClassC
  {
    ClassCText();
    QuadClassified(192, 168, 1, 10);
  }

  /** The text of ClassCScenario is a dotted quad. */
  lemma ClassCText()
    ensures Ascii("192.168.1.10") == Quad(192, 168, 1, 10)
  {
  }

  /** "10.0.0.1" is private class A. */
  lemma ClassAScenario()
    ensures Classify(Ascii("10.0.0.1")) == PrivateClassA
  {
    ClassAText();
    QuadClassified(10, 0, 0, 1);
  }

  /** The text of ClassAScenario is a dotted quad. */
  lemma ClassAText()
    ensures Ascii("10.0.0.1") == Quad(10, 0, 0, 1)
  {
  }

  /** "172.20.5.1" is private class B. */
  lemma ClassBScenario()
    ensures Classify(Ascii("172.20.5.1")) == PrivateClassB
  {
    ClassBText();
    QuadClassified(172, 20, 5, 1);
  }

  /** The text of ClassBScenario is a dotted quad. */
  lemma ClassBText()
    ensures Ascii("172.20.5.1") == Quad(172, 20, 5, 1)
  {
  }

  /** "172.32.0.1" is past the class B range and public. */
  lemma PastClassBScenario()
    ensures Classify(Ascii("172.32.0.1")) == Public
  {
    PastClassBText();
    QuadClassified(172, 32, 0, 1);
  }

  /** The text of PastClassBScenario is a dotted quad. */
  lemma PastClassBText()
    ensures Ascii("172.32.0.1") == Quad(172, 32, 0, 1)
  {
  }

  /** "127.0.0.1" is loopback. */
  lemma LoopbackScenario()
    ensures Classify(Ascii("127.0.0.1")) == Loopback
  {
    LoopbackText();
    QuadClassified(127, 0, 0, 1);
  }

  /** The text of LoopbackScenario is a dotted quad. */
  lemma LoopbackText()
    ensures Ascii("127.0.0.1") == Quad(127, 0, 0, 1)
  {
  }

  /** "8.8.8.8" is public. */
  lemma PublicScenario()
    ensures Classify(Ascii("8.8.8.8")) == Public
  {
    PublicText();
    QuadClassified(8, 8, 8, 8);
  }

  /** The text of PublicScenario is a dotted quad. */
  lemma PublicText()
    ensures Ascii("8.8.8.8") == Quad(8, 8, 8, 8)
  {
  }

  /** Scanning stops after a field that is followed by neither a digit nor
      '.': that field is the last one stored. */
  lemma {:induction false} FieldThenStop(f: FieldText, rest: seq<byte>, count: nat)
    requires WellFormed(f)
    requires count >= 1
    requires rest == [] || (!IsDigit(rest[0]) && rest[0] != Dot)
    ensures ScanFields(FieldBytes(f) + rest, count) == [FieldValue(f)]
  {
    ScanIntOfField(f, rest);
  }

  /** The last two of three fields: both are stored and scanning stops. */
  lemma {:induction false} LastTwoOfThree(f2: FieldText, f3: FieldText)
    requires WellFormed(f2) && WellFormed(f3)
    ensures ScanFields(FieldBytes(f2) + ([Dot] + FieldBytes(f3)), 3) == [FieldValue(f2), FieldValue(f3)]
  {
    FieldThenDot(f2, FieldBytes(f3), 3);
    assert FieldBytes(f3) + [] == FieldBytes(f3);
    FieldThenStop(f3, [], 2);
  }

  /** Three well-formed fields joined by '.' scan to their three values and
      no more. */
  lemma {:induction false} ScanThreeFields(f1: FieldText, f2: FieldText, f3: FieldText)
    requires WellFormed(f1) && WellFormed(f2) && WellFormed(f3)
    ensures Scan(FieldBytes(f1) + [Dot] + FieldBytes(f2) + [Dot] + FieldBytes(f3))
            == [FieldValue(f1), FieldValue(f2), FieldValue(f3)]
  {
    var z1 := FieldBytes(f2) + ([Dot] + FieldBytes(f3));
    var text := FieldBytes(f1) + [Dot] + FieldBytes(f2) + [Dot] + FieldBytes(f3);
    assert text == FieldBytes(f1) + ([Dot] + z1);
    calc {
      Scan(text);
      ScanFields(FieldBytes(f1) + ([Dot] + z1), 4);
      { FieldThenDot(f1, z1, 4); }
      [FieldValue(f1)] + ScanFields(z1, 3);
      { LastTwoOfThree(f2, f3); }
      [FieldValue(f1)] + [FieldValue(f2), FieldValue(f3)];
    }
  }

  /** A text of only three dotted fields is not a dotted quad: it scans to
      three fields and is an "Invalid/Special format". */
  lemma {:induction false} ThreeFieldsInvalid(a: nat, b: nat, c: nat)
    ensures Scan(Decimal(a) + [Dot] + Decimal(b) + [Dot] + Decimal(c)) == [a, b, c]
    ensures Classify(Decimal(a) + [Dot] + Decimal(b) + [Dot] + Decimal(c)) == InvalidFormat
  {
    var f1, f2, f3 := PlainField(a), PlainField(b), PlainField(c);
    ScanThreeFields(f1, f2, f3);
    var text := Decimal(a) + [Dot] + Decimal(b) + [Dot] + Decimal(c);
    assert Scan(text) == [a, b, c];
    assert |text| >= 5;
  }

  /** "N/A" and the empty text are "Not Connected". */
  lemma NotConnectedScenarios()
    ensures Classify(Ascii("N/A")) == NotConnected
    ensures Classify([]) == NotConnected
  {
    assert Ascii("N/A") == NotAvailable;
  }

  /** "garbage" is an "Invalid/Special format": no field scans. */
  lemma GarbageScenario()
    ensures Scan(Ascii("garbage")) == []
    ensures Classify(Ascii("garbage")) == InvalidFormat
  {
    var text := Ascii("garbage");
    assert text[0] == 103;
    assert SkipSpaces(text) == text;
    assert DigitRun(text) == 0;
  }

  /** "10.0.0", one field short, is an "Invalid/Special format". */
  lemma ThreeFieldScenario()
    ensures Classify(Ascii("10.0.0")) == InvalidFormat
  {
    assert Decimal(10) == [49, 48];
    assert Ascii("10.0.0") == Decimal(10) + [Dot] + Decimal(0) + [Dot] + Decimal(0);
    ThreeFieldsInvalid(10, 0, 0);
  }

  /** Whatever follows the fourth field is ignored. */
  lemma TrailingTextIgnored()
    ensures Classify(Ascii("8.8.8.8 backup")) == Public
  {
    assert Ascii("8.8.8.8 backup") == Quad(8, 8, 8, 8) + Ascii(" backup");
    QuadClassifiedByFirstTwoFields(8, 8, 8, 8, Ascii(" backup"));
  }

  /** " 10.-1.+2.\t3" scans as 10, -1, 2, 3. */
  lemma SpacesAndSignsAccepted()
    ensures Scan(Ascii(" 10.-1.+2.\t3")) == [10, -1, 2, 3]
  {
    var f1, f2 := FieldText([Space], [], [49, 48]), FieldText([], [Minus], [49]);
    var f3, f4 := FieldText([], [Plus], [50]), FieldText([9], [], [51]);
    SignedTextFields();
    ScanFieldsRoundTrip(f1, f2, f3, f4, []);
    SignedFieldValues();
  }

  /** The four fields of " 10.-1.+2.\t3" and their values. */
  lemma SignedFieldValues()
    ensures FieldValue(FieldText([Space], [], [49, 48])) == 10
    ensures FieldValue(FieldText([], [Minus], [49])) == -1
    ensures FieldValue(FieldText([], [Plus], [50])) == 2
    ensures FieldValue(FieldText([9], [], [51])) == 3
  {
  }

  /** " 10.-1.+2.\t3" is made of four fields with white space and signs. */
  lemma SignedTextFields()
    ensures Ascii(" 10.-1.+2.\t3")
            == FieldBytes(FieldText([Space], [], [49, 48])) + [Dot] + FieldBytes(FieldText([], [Minus], [49])) + [Dot]
               + FieldBytes(FieldText([], [Plus], [50])) + [Dot] + FieldBytes(FieldText([9], [], [51])) + []
  {
  }

  /** A leading zero does not change the value of a digit run. */
  lemma {:induction false} LeadingZeroIgnored(ds: seq<byte>)
    requires AllDigits(ds)
    ensures AllDigits([48] + ds)
    ensures DigitsValue([48] + ds) == DigitsValue(ds)
    decreases |ds|
  {
    var zs := [48] + ds;
    assert forall k | 0 <= k < |zs| :: IsDigit(zs[k]);
    if ds != [] {
      var init := ds[..|ds| - 1];
      assert AllDigits(init);
      assert zs[..|zs| - 1] == [48] + init;
      LeadingZeroIgnored(init);
    }
  }

  /** The value of a three-digit run, place by place. */
  lemma {:induction false} ThreeDigitsValue(ds: seq<byte>)
    requires |ds| == 3 && AllDigits(ds)
    ensures DigitsValue(ds) == 100 * (ds[0] as int - 48) + 10 * (ds[1] as int - 48) + (ds[2] as int - 48)
  {
    assert ds[..2][..1] == ds[..1] && ds[..1][..0] == [];
    assert DigitsValue(ds[..1]) == ds[0] as int - 48;
    assert DigitsValue(ds[..2]) == 10 * (ds[0] as int - 48) + (ds[1] as int - 48);
  }

  /** The four fields of "192.168.001.010" and their values. */
  lemma PaddedFieldValues()
    ensures FieldValue(FieldText([], [], [49, 57, 50])) == 192
    ensures FieldValue(FieldText([], [], [49, 54, 56])) == 168
    ensures FieldValue(FieldText([], [], [48, 48, 49])) == 1
    ensures FieldValue(FieldText([], [], [48, 49, 48])) == 10
  {
    ThreeDigitsValue([49, 57, 50]);
    ThreeDigitsValue([49, 54, 56]);
    ThreeDigitsValue([48, 48, 49]);
    ThreeDigitsValue([48, 49, 48]);
  }

  /** "192.168.001.010" is made of those four fields. */
  lemma PaddedTextFields()
    ensures Ascii("192.168.001.010")
            == FieldBytes(FieldText([], [], [49, 57, 50])) + [Dot] + FieldBytes(FieldText([], [], [49, 54, 56])) + [Dot]
               + FieldBytes(FieldText([], [], [48, 48, 49])) + [Dot] + FieldBytes(FieldText([], [], [48, 49, 48])) + []
  {
  }

  /** Zero-padded fields are read as decimal: "192.168.001.010" scans to
      192, 168, 1, 10. */
  lemma ZeroPaddedFieldsScenario()
    ensures Scan(Ascii("192.168.001.010")) == [192, 168, 1, 10]
  {
    var f1, f2 := FieldText([], [], [49, 57, 50]), FieldText([], [], [49, 54, 56]);
    var f3, f4 := FieldText([], [], [48, 48, 49]), FieldText([], [], [48, 49, 48]);
    PaddedTextFields();
    ScanFieldsRoundTrip(f1, f2, f3, f4, []);
    PaddedFieldValues();
  }

  /** ... and so "192.168.001.010" is private class C. */
  lemma ZeroPaddedClassCScenario()
    ensures Classify(Ascii("192.168.001.010")) == PrivateClassC
  {
    ZeroPaddedFieldsScenario();
  }
}

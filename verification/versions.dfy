/** Dotted version numbers: how they are read, printed and ordered. */
module Versions {
  import opened Bytes

  // ---- Decimal numbers ----

  predicate IsDigit(c: char) {
    '0' <= c <= '9'
  }

  function DigitValue(c: char): (d: nat)
    requires IsDigit(c)
    ensures d < 10
  {
    c as int - '0' as int
  }

  function DigitOf(d: nat): (c: char)
    requires d < 10
    ensures IsDigit(c) && DigitValue(c) == d
  {
    ('0' as int + d) as char
  }

  predicate AllDigits(s: string) {
    forall c :: c in s ==> IsDigit(c)
  }

  function Number(digits: string): nat
    requires AllDigits(digits)
  {
    if digits == [] then 0 else 10 * Number(digits[..|digits| - 1]) + DigitValue(digits[|digits| - 1])
  }

  /** std::to_string. */
  function Decimal(n: nat): (s: string)
    ensures s != [] && AllDigits(s)
  {
    if n < 10 then [DigitOf(n)] else Decimal(n / 10) + [DigitOf(n % 10)]
  }

  lemma {:induction false} DecimalRoundTrip(n: nat)
    ensures Number(Decimal(n)) == n
  {
    if n < 10 {
      assert Decimal(n)[..0] == [];
    } else {
      DecimalRoundTrip(n / 10);
      assert Decimal(n)[..|Decimal(n)| - 1] == Decimal(n / 10);
    }
  }

  // ---- strtol ----

  predicate IsSpace(c: char) {
    c == ' ' || c == '\t' || c == '\n' || c == '\r' || c == '\U{0B}' || c == '\U{0C}'
  }

  /** The space, or one of the five control characters from the tab on. */
  predicate IsBlank(c: char) {
    c as int == 32 || 9 <= c as int <= 13
  }

  lemma SpaceIsBlank(c: char)
    ensures IsSpace(c) <==> IsBlank(c)
  {
  }

  function SkipSpaces(s: string): string {
    if s != [] && IsSpace(s[0]) then SkipSpaces(s[1..]) else s
  }

  function DigitCount(s: string): (k: nat)
    ensures k <= |s| && AllDigits(s[..k])
    ensures k < |s| ==> !IsDigit(s[k])
  {
    if s == [] || !IsDigit(s[0]) then 0
    else
      var k := 1 + DigitCount(s[1..]);
      assert s[..k] == [s[0]] + s[1..][..k - 1];
      k
  }

  /** The number a text begins with, if it begins with one. */
  function Strtol(s: string): Option<int> {
    var t := SkipSpaces(s);
    var signed := t != [] && (t[0] == '-' || t[0] == '+');
    var u := if signed then t[1..] else t;
    var k := DigitCount(u);
    var n: int := Number(u[..k]);
    if k == 0 then None else Some(if signed && t[0] == '-' then -n else n)
  }

  const INT_LIMIT: int := 0x8000_0000

  /** A part that is no number, or none that fits an int, counts as zero. */
  function PartValue(part: string): int {
    match Strtol(part)
    case None => 0
    case Some(v) => if -INT_LIMIT <= v < INT_LIMIT then v else 0
  }

  lemma {:induction false} DigitsAreCounted(s: string)
    requires AllDigits(s)
    ensures DigitCount(s) == |s|
  {
    if s != [] {
      DigitsAreCounted(s[1..]);
    }
  }

  lemma PrintedPartRoundTrip(n: nat)
    requires n < INT_LIMIT
    ensures PartValue(Decimal(n)) == n
  {
    var s := Decimal(n);
    assert IsDigit(s[0]);
    DigitsAreCounted(s);
    DecimalRoundTrip(n);
    assert s[..|s|] == s;
  }

  lemma StrtolIs(spaces: string, sign: string, digits: string, rest: string)
    requires (forall c :: c in spaces ==> IsBlank(c)) && (sign == "" || sign == "-" || sign == "+")
    requires AllDigits(digits) && digits != "" && (rest == "" || !IsDigit(rest[0]))
    ensures Strtol(spaces + (sign + (digits + rest))) == Some(if sign == "-" then 0 - Number(digits) else Number(digits))
  {
    hide Number, SkipSpaces, DigitCount;
    var u := digits + rest;
    var t := sign + u;
    assert u[0] == digits[0] && digits[0] in digits;
    LeadingDigits(digits, rest);
    assert u[..|digits|] == digits;
    if sign == "" {
      assert t == u;
    } else {
      assert t[0] == sign[0] && t[1..] == u;
    }
    SpacesAreSkipped(spaces, t);
  }

  /** What a part is read as: after spaces and a sign, if there are any, the number in its leading
      digits; zero if there are none, or the number does not fit an int. */
  lemma PartValueIs(spaces: string, sign: string, digits: string, rest: string)
    requires (forall c :: c in spaces ==> IsBlank(c)) && (sign == "" || sign == "-" || sign == "+")
    requires AllDigits(digits) && digits != "" && (rest == "" || !IsDigit(rest[0]))
    ensures var n: int := if sign == "-" then 0 - Number(digits) else Number(digits);
            PartValue(spaces + (sign + (digits + rest))) == if -0x8000_0000 <= n < 0x8000_0000 then n else 0
  {
    hide Number, Strtol;
    StrtolIs(spaces, sign, digits, rest);
  }

  lemma {:induction false} SpacesAreSkipped(spaces: string, t: string)
    requires (forall c :: c in spaces ==> IsBlank(c)) && (t == "" || !IsBlank(t[0]))
    ensures SkipSpaces(spaces + t) == t
  {
    if spaces == "" {
      assert spaces + t == t;
      if t != "" {
        SpaceIsBlank(t[0]);
      }
    } else {
      SpaceIsBlank(spaces[0]);
      assert spaces[0] in spaces && (spaces + t)[1..] == spaces[1..] + t;
      SpacesAreSkipped(spaces[1..], t);
    }
  }

  lemma {:induction false} LeadingDigits(digits: string, rest: string)
    requires AllDigits(digits) && (rest == "" || !IsDigit(rest[0]))
    ensures DigitCount(digits + rest) == |digits|
  {
    if digits == "" {
      assert digits + rest == rest;
    } else {
      assert digits[0] in digits && (digits + rest)[1..] == digits[1..] + rest;
      LeadingDigits(digits[1..], rest);
    }
  }

  lemma NoNumberIsZero(spaces: string, rest: string)
    requires (forall c :: c in spaces ==> IsBlank(c))
    requires rest == "" || (!IsBlank(rest[0]) && !IsDigit(rest[0]) && rest[0] != '-' && rest[0] != '+')
    ensures PartValue(spaces + rest) == 0
  {
    SpacesAreSkipped(spaces, rest);
  }

  // ---- Parts ----

  function DotAt(s: string): (k: nat)
    ensures k <= |s| && '.' !in s[..k]
    ensures k < |s| ==> s[k] == '.'
  {
    if s == [] || s[0] == '.' then 0
    else
      var k := 1 + DotAt(s[1..]);
      assert s[..k] == [s[0]] + s[1..][..k - 1];
      k
  }

  function AfterDot(s: string, k: nat): string
    requires k <= |s|
  {
    if k < |s| then s[k + 1..] else []
  }

  /** The values of the parts, as std::getline splits them: a dot at the very end begins no part. */
  function Parts(version: string): seq<int>
    decreases |version|
  {
    if version == [] then []
    else
      var k := DotAt(version);
      [PartValue(version[..k])] + Parts(AfterDot(version, k))
  }

  /** A list of numbers printed with dots between. */
  function Dotted(values: seq<nat>): string
    requires values != []
  {
    if |values| == 1 then Decimal(values[0]) else Decimal(values[0]) + "." + Dotted(values[1..])
  }

  lemma {:induction false} DotAfter(s: string, rest: string)
    requires '.' !in s
    ensures DotAt(s + rest) == |s| + DotAt(rest)
  {
    if s == [] {
      assert s + rest == rest;
    } else {
      assert (s + rest)[1..] == s[1..] + rest;
      DotAfter(s[1..], rest);
    }
  }

  lemma DigitsHaveNoDot(s: string)
    requires AllDigits(s)
    ensures '.' !in s
  {
    assert !IsDigit('.');
  }

  lemma OnePart(s: string)
    requires s != [] && '.' !in s
    ensures Parts(s) == [PartValue(s)]
  {
    hide PartValue;
    DotAfter(s, []);
    assert s + [] == s && s[..|s|] == s;
  }

  lemma FirstPart(s: string, rest: string)
    requires '.' !in s
    ensures Parts(s + "." + rest) == [PartValue(s)] + Parts(rest)
  {
    hide PartValue;
    var version := s + "." + rest;
    DotAfter(s, "." + rest);
    assert version == s + ("." + rest);
    assert version[..|s|] == s && AfterDot(version, |s|) == rest;
  }

  /** Every printed version is read back as the numbers it was printed from. */
  lemma {:induction false} DottedRoundTrip(values: seq<nat>)
    requires values != [] && forall v :: v in values ==> v < INT_LIMIT
    ensures Parts(Dotted(values)) == values
  {
    hide PartValue, Decimal, DotAt;
    var first := Decimal(values[0]);
    DigitsHaveNoDot(first);
    assert values[0] in values && forall v :: v in values[1..] ==> v in values;
    PrintedPartRoundTrip(values[0]);
    if |values| == 1 {
      OnePart(first);
    } else {
      var rest := Dotted(values[1..]);
      DottedRoundTrip(values[1..]);
      FirstPart(first, rest);
      assert values == [values[0]] + values[1..];
    }
  }

  // ---- The order ----

  function PartAt(parts: seq<int>, i: nat): int {
    if i < |parts| then parts[i] else 0
  }

  predicate EqualBefore(a: seq<int>, b: seq<int>, i: nat) {
    forall j: nat :: j < i ==> PartAt(a, j) == PartAt(b, j)
  }

  /** The first part in which the two differ, missing parts being zero, is greater in `b`. */
  predicate FirstGreater(a: seq<int>, b: seq<int>, i: nat) {
    PartAt(a, i) < PartAt(b, i) && EqualBefore(a, b, i)
  }

  ghost predicate Newer(a: seq<int>, b: seq<int>) {
    exists i: nat :: FirstGreater(a, b, i)
  }

  lemma NoParts()
    ensures Parts([]) == []
  {
  }

  lemma FirstPartOf(s: string)
    requires s != []
    ensures Parts(s) == [PartValue(s[..DotAt(s)])] + Parts(AfterDot(s, DotAt(s)))
  {
    hide PartValue;
  }

  lemma PartThenRest(parts: seq<int>, part: int, rest: seq<int>)
    ensures parts + ([part] + rest) == (parts + [part]) + rest
  {
  }

  method ParseVersion(version: string) returns (parts: seq<int>)
    ensures parts == Parts(version)
  {
    NoParts();
    hide Parts, PartValue;
    parts := [];
    var rest := version;
    while rest != []
      invariant parts + Parts(rest) == Parts(version)
      decreases |rest|
    {
      var k := DotAt(rest);
      FirstPartOf(rest);
      PartThenRest(parts, PartValue(rest[..k]), Parts(AfterDot(rest, k)));
      parts := parts + [PartValue(rest[..k])];
      rest := AfterDot(rest, k);
    }
  }

  predicate SamePart(a: seq<int>, b: seq<int>, i: nat) {
    PartAt(a, i) == PartAt(b, i)
  }

  ghost predicate Alike(a: seq<int>, b: seq<int>) {
    forall i: nat :: SamePart(a, b, i)
  }

  /** The first place where two versions differ, if there is one. */
  lemma {:induction false} FirstDifference(a: seq<int>, b: seq<int>, n: nat)
    ensures EqualBefore(a, b, n) ||
            exists i: nat :: i < n && (FirstGreater(a, b, i) || FirstGreater(b, a, i))
  {
    if n > 0 {
      FirstDifference(a, b, n - 1);
      if EqualBefore(a, b, n - 1) && PartAt(a, n - 1) != PartAt(b, n - 1) {
        assert FirstGreater(a, b, n - 1) || FirstGreater(b, a, n - 1);
      }
    }
  }

  /** A strict weak order: no version is newer than itself, newer than newer is newer, and
      of two versions neither is newer iff they agree in every part, so that not being
      newer either way is an equivalence. */
  lemma VersionsAreStrictlyWeaklyOrdered(a: seq<int>, b: seq<int>, c: seq<int>)
    ensures !Newer(a, a)
    ensures Newer(a, b) && Newer(b, c) ==> Newer(a, c)
    ensures Newer(a, b) ==> !Newer(b, a)
    ensures !Newer(a, b) && !Newer(b, a) <==> Alike(a, b)
    ensures Alike(a, b) && Alike(b, c) ==> Alike(a, c)
  {
    hide PartAt;
    if Newer(a, b) && Newer(b, c) {
      var i: nat :| FirstGreater(a, b, i);
      var k: nat :| FirstGreater(b, c, k);
      assert FirstGreater(a, c, if i < k then i else k);
    }
    NewerIsOneWay(a, b);
    NeitherNewerIff(a, b);
    if Alike(a, b) && Alike(b, c) {
      forall i: nat
        ensures SamePart(a, c, i)
      {
        assert SamePart(a, b, i) && SamePart(b, c, i);
      }
    }
  }

  lemma NewerIsOneWay(a: seq<int>, b: seq<int>)
    ensures Newer(a, b) ==> !Newer(b, a)
  {
    hide PartAt;
    forall i: nat, k: nat | FirstGreater(a, b, i)
      ensures !FirstGreater(b, a, k)
    {
    }
  }

  lemma NeitherNewerIff(a: seq<int>, b: seq<int>)
    ensures !Newer(a, b) && !Newer(b, a) <==> Alike(a, b)
  {
    var n := if |a| > |b| then |a| else |b|;
    FirstDifference(a, b, n);
    if !Newer(a, b) && !Newer(b, a) {
      assert forall i: nat :: SamePart(a, b, i);
    }
    if Alike(a, b) {
      forall i: nat
        ensures !FirstGreater(a, b, i) && !FirstGreater(b, a, i)
      {
        assert SamePart(a, b, i);
      }
    }
  }

  /** A part that is missing counts as zero. */
  lemma MissingPartIsZero(a: seq<int>, x: int)
    ensures Newer(a, a + [x]) <==> x > 0
    ensures Newer(a + [x], a) <==> x < 0
  {
    if x > 0 {
      assert FirstGreater(a, a + [x], |a|);
    }
    if x < 0 {
      assert FirstGreater(a + [x], a, |a|);
    }
    forall i: nat
      ensures FirstGreater(a, a + [x], i) ==> x > 0
      ensures FirstGreater(a + [x], a, i) ==> x < 0
    {
    }
  }

  method IsVersionNewer(oldVersion: string, newVersion: string) returns (newer: bool)
    ensures newer <==> Newer(Parts(oldVersion), Parts(newVersion))
  {
    hide Parts, Newer;
    var oldParts := ParseVersion(oldVersion);
    var newParts := ParseVersion(newVersion);
    var n := if |oldParts| > |newParts| then |oldParts| else |newParts|;
    for i := 0 to n
      invariant EqualBefore(oldParts, newParts, i)
    {
      var oldValue, newValue := PartAt(oldParts, i), PartAt(newParts, i);
      if newValue > oldValue {
        GreaterHere(oldParts, newParts, i);
        return true;
      }
      if newValue < oldValue {
        GreaterHere(newParts, oldParts, i);
        return false;
      }
    }
    EqualThroughout(oldParts, newParts);
    return false;
  }

  lemma GreaterHere(a: seq<int>, b: seq<int>, i: nat)
    requires FirstGreater(a, b, i)
    ensures Newer(a, b) && !Newer(b, a)
  {
    NewerIsOneWay(a, b);
  }

  lemma EqualThroughout(a: seq<int>, b: seq<int>)
    requires EqualBefore(a, b, |a|) && EqualBefore(a, b, |b|)
    ensures !Newer(a, b)
  {
    forall i: nat
      ensures !FirstGreater(a, b, i)
    {
      assert i < |a| || i < |b| ==> PartAt(a, i) == PartAt(b, i);
    }
  }

  // ---- Packed versions ----

  /** Three bits, five bits and four bits; the last four bits are not part of the version. */
  function PackedParts(raw: u16): seq<nat> {
    var high, low := raw / 0x100, raw % 0x100;
    [high / 0x20, high % 0x20, low / 0x10]
  }

  function ParsePackedFirmwareVersion(raw: u16): string {
    Dotted(PackedParts(raw))
  }

  lemma ThreePartsCompare(a: seq<int>, b: seq<int>)
    requires |a| == 3 && |b| == 3
    ensures Newer(a, b) <==> a[0] < b[0] || (a[0] == b[0] && (a[1] < b[1] || (a[1] == b[1] && a[2] < b[2])))
  {
    if a[0] < b[0] {
      assert FirstGreater(a, b, 0);
    } else if a[0] == b[0] && a[1] < b[1] {
      assert FirstGreater(a, b, 1);
    } else if a[0] == b[0] && a[1] == b[1] && a[2] < b[2] {
      assert FirstGreater(a, b, 2);
    }
    forall i: nat | FirstGreater(a, b, i)
      ensures a[0] < b[0] || (a[0] == b[0] && (a[1] < b[1] || (a[1] == b[1] && a[2] < b[2])))
    {
      assert i > 0 ==> PartAt(a, 0) == PartAt(b, 0);
      assert i > 1 ==> PartAt(a, 1) == PartAt(b, 1);
    }
  }

  lemma PackedPartsOrder(a: u16, b: u16)
    ensures var p, q := PackedParts(a), PackedParts(b);
            a / 0x10 < b / 0x10 <==> p[0] < q[0] || (p[0] == q[0] && (p[1] < q[1] || (p[1] == q[1] && p[2] < q[2])))
  {
    PackedValue(a);
    PackedValue(b);
    hide PackedParts;
  }

  lemma PackedValue(raw: u16)
    ensures var p := PackedParts(raw);
            && |p| == 3 && p[0] < 8 && p[1] < 0x20 && p[2] < 0x10
            && raw / 0x10 == 0x200 * p[0] + 0x10 * p[1] + p[2]
  {
  }

  /** Packed versions, printed and read back, are ordered by their upper twelve bits. */
  lemma PackedVersionsAreOrderedByValue(a: u16, b: u16)
    ensures Newer(Parts(ParsePackedFirmwareVersion(a)), Parts(ParsePackedFirmwareVersion(b))) <==> a / 0x10 < b / 0x10
  {
    hide Newer, Parts, Dotted;
    PackedValue(a);
    PackedValue(b);
    DottedRoundTrip(PackedParts(a));
    DottedRoundTrip(PackedParts(b));
    ThreePartsCompare(PackedParts(a), PackedParts(b));
    PackedPartsOrder(a, b);
  }
}

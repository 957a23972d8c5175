/**
 * The JavaScript built-ins that the client's view filters rely on, with the
 * semantics of ECMAScript 5: `String.prototype.split` with a string
 * separator, `Array.prototype.join`, `Array.prototype.indexOf`, `parseInt`
 * and the 32-bit bitwise `&`.
 */
module JsText {
  import opened Wrappers

  // ---------------------------------------------------------------------
  // Searching

  /** Position of the first `c` in `s`. */
  function FirstIndexOfChar(s: string, c: char): (r: Option<nat>)
    ensures r.Some? ==> r.value < |s| && s[r.value] == c && forall j :: 0 <= j < r.value ==> s[j] != c
    ensures r.None? <==> c !in s
  {
    if s == [] then None
    else if s[0] == c then Some(0)
    else match FirstIndexOfChar(s[1..], c)
      case None => None
      case Some(k) => Some(k + 1)
  }

  /** `sep` occurs in `s` at position `j`. */
  predicate OccursAt(s: string, sep: string, j: int) {
    0 <= j && j + |sep| <= |s| && s[j..j + |sep|] == sep
  }

  /** An occurrence in `s[1..]` is an occurrence in `s`, one position further on. */
  lemma OccursShift(s: string, sep: string, j: int)
    requires |s| > 0 && 0 <= j
    ensures OccursAt(s[1..], sep, j) <==> OccursAt(s, sep, j + 1)
  {
    if j + 1 + |sep| <= |s| {
      assert s[1..][j..j + |sep|] == s[j + 1..j + 1 + |sep|];
    }
  }

  /** Position of the first occurrence of the non-empty `sep` in `s`. */
  function IndexOfSeq(s: string, sep: string): (r: Option<nat>)
    requires |sep| > 0
    ensures r.Some? ==> OccursAt(s, sep, r.value) && forall j :: 0 <= j < r.value ==> !OccursAt(s, sep, j)
    ensures r.None? ==> forall j :: !OccursAt(s, sep, j)
    decreases |s|
  {
    if |s| < |sep| then None
    else if s[..|sep|] == sep then Some(0)
    else
      var r := IndexOfSeq(s[1..], sep);
      assert forall j :: 1 <= j ==> (OccursAt(s, sep, j) <==> OccursAt(s[1..], sep, j - 1)) by {
        forall j | 1 <= j ensures OccursAt(s, sep, j) <==> OccursAt(s[1..], sep, j - 1) {
          OccursShift(s, sep, j - 1);
        }
      }
      assert !OccursAt(s, sep, 0);
      match r
      case None => None
      case Some(k) => Some(k + 1)
  }

  /** `Array.prototype.indexOf`: the first position of `v`, or -1. */
  function IndexOf<T(==)>(a: seq<T>, v: T): (r: int)
    ensures -1 <= r < |a|
    ensures r == -1 <==> v !in a
    ensures r >= 0 ==> a[r] == v && forall j :: 0 <= j < r ==> a[j] != v
  {
    if a == [] then -1
    else if a[0] == v then 0
    else
      var k := IndexOf(a[1..], v);
      if k == -1 then -1 else k + 1
  }

  // ---------------------------------------------------------------------
  // split and join

  /** `s.split(sep)` for a non-empty string separator: the pieces between occurrences, left to right. */
  function SplitOn(s: string, sep: string): (parts: seq<string>)
    requires |sep| > 0
    ensures |parts| >= 1
    decreases |s|
  {
    match IndexOfSeq(s, sep)
    case None => [s]
    case Some(i) => [s[..i]] + SplitOn(s[i + |sep|..], sep)
  }

  /** No piece of a split contains the separator. */
  lemma {:induction false} SplitPiecesLackSeparator(s: string, sep: string)
    requires |sep| > 0
    ensures forall p :: p in SplitOn(s, sep) ==> forall j :: !OccursAt(p, sep, j)
    decreases |s|
  {
    match IndexOfSeq(s, sep)
    case None =>
    case Some(i) =>
      SplitPiecesLackSeparator(s[i + |sep|..], sep);
      forall j | OccursAt(s[..i], sep, j) ensures OccursAt(s, sep, j) {
        assert s[..i][j..j + |sep|] == s[j..j + |sep|];
      }
      assert SplitOn(s, sep) == [s[..i]] + SplitOn(s[i + |sep|..], sep);
  }

  /** `parts.join(sep)`. */
  function Join(parts: seq<string>, sep: string): (r: string)
    ensures |parts| == 0 ==> r == ""
    ensures |parts| > 0 ==> |parts[0]| <= |r| && r[..|parts[0]|] == parts[0]
    ensures |parts| > 0 ==> |parts[|parts| - 1]| <= |r| && r[|r| - |parts[|parts| - 1]|..] == parts[|parts| - 1]
  {
    if |parts| == 0 then ""
    else if |parts| == 1 then parts[0]
    else
      var tail := Join(parts[1..], sep);
      var r := parts[0] + sep + tail;
      assert r[..|parts[0]|] == parts[0];
      assert r[|r| - |tail|..] == tail;
      r
  }

  /** Joining a piece in front of at least one other puts the separator between them. */
  lemma JoinCons(p: string, tail: seq<string>, sep: string)
    requires |tail| >= 1
    ensures Join([p] + tail, sep) == p + sep + Join(tail, sep)
  {
    assert ([p] + tail)[1..] == tail;
  }

  /** Where the first separator is at `i`, the split is the text before it, then the split of the rest. */
  lemma SplitOnAt(s: string, sep: string, i: nat)
    requires |sep| > 0 && IndexOfSeq(s, sep) == Some(i)
    ensures SplitOn(s, sep) == [s[..i]] + SplitOn(s[i + |sep|..], sep)
  {
  }

  /** The first occurrence found is an occurrence. */
  lemma FoundOccurrence(s: string, sep: string, i: nat)
    requires |sep| > 0 && IndexOfSeq(s, sep) == Some(i)
    ensures i + |sep| <= |s| && s[i..i + |sep|] == sep
  {
    assert OccursAt(s, sep, i);
  }

  /** Joining the pieces of a split with the same separator gives back the text. */
  lemma {:induction false} JoinSplit(s: string, sep: string)
    requires |sep| > 0
    ensures Join(SplitOn(s, sep), sep) == s
    decreases |s|
  {
    match IndexOfSeq(s, sep)
    case None =>
    case Some(i) =>
      SplitOnAt(s, sep, i);
      FoundOccurrence(s, sep, i);
      var rest := s[i + |sep|..];
      JoinSplit(rest, sep);
      JoinCons(s[..i], SplitOn(rest, sep), sep);
      SliceAround(s, i, |sep|);
  }

  lemma SliceAround(s: string, i: nat, k: nat)
    requires i + k <= |s|
    ensures s == s[..i] + s[i..i + k] + s[i + k..]
  {
  }

  /** A one-character separator that is not in the text does not occur in it. */
  lemma NoOccurrenceWithoutChar(s: string, c: char)
    requires c !in s
    ensures IndexOfSeq(s, [c]) == None
  {
    forall j | 0 <= j < |s| ensures !OccursAt(s, [c], j) {
      assert s[j..j + 1] == [s[j]];
    }
  }

  /** In `p + [c] + t` with no `c` in `p`, the first `c` is the one after `p`. */
  lemma FirstOccurrenceAfter(p: string, c: char, t: string)
    requires c !in p
    ensures IndexOfSeq(p + [c] + t, [c]) == Some(|p|)
  {
    var s := p + [c] + t;
    assert OccursAt(s, [c], |p|) by {
      assert s[|p|..|p| + 1] == [c];
    }
    forall j | 0 <= j < |p| ensures !OccursAt(s, [c], j) {
      assert s[j..j + 1] == [p[j]];
    }
  }

  /** Splitting text joined with a one-character separator that no piece contains gives back the pieces. */
  lemma {:induction false} SplitJoin(parts: seq<string>, c: char)
    requires |parts| >= 1
    requires forall p :: p in parts ==> c !in p
    ensures SplitOn(Join(parts, [c]), [c]) == parts
  {
    var s := Join(parts, [c]);
    assert parts[0] in parts;
    if |parts| == 1 {
      NoOccurrenceWithoutChar(s, c);
    } else {
      var p0, tail := parts[0], parts[1..];
      SplitJoin(tail, c);
      assert s == p0 + [c] + Join(tail, [c]);
      FirstOccurrenceAfter(p0, c, Join(tail, [c]));
      assert s[..|p0|] == p0;
      assert s[|p0| + 1..] == Join(tail, [c]);
    }
  }

  /** `Array.prototype.join` renders null and undefined elements (None) as the empty string. */
  function Rendered(elements: seq<Option<string>>): (r: seq<string>)
    ensures |r| == |elements|
    ensures forall i :: 0 <= i < |r| ==> r[i] == elements[i].GetOr("")
  {
    seq(|elements|, i requires 0 <= i < |elements| => elements[i].GetOr(""))
  }

  /** `Array.prototype.join`: the rendered elements with the separator between them. */
  function ArrayJoin(elements: seq<Option<string>>, sep: string): (r: string)
    ensures |elements| == 0 ==> r == ""
    ensures |elements| > 0 ==> |elements[0].GetOr("")| <= |r| && r[..|elements[0].GetOr("")|] == elements[0].GetOr("")
    ensures |elements| > 0 ==> var last := elements[|elements| - 1].GetOr("");
      |last| <= |r| && r[|r| - |last|..] == last
  {
    Join(Rendered(elements), sep)
  }

  // ---------------------------------------------------------------------
  // parseInt

  /** StrWhiteSpaceChar: the characters `parseInt` skips at the start. */
  predicate IsWhiteSpace(c: char) {
    || c in {'\t', '\n', '\U{000B}', '\U{000C}', '\r', ' ', '\U{00A0}', '\U{1680}',
             '\U{2028}', '\U{2029}', '\U{202F}', '\U{205F}', '\U{3000}', '\U{FEFF}'}
    || '\U{2000}' <= c <= '\U{200A}'
  }

  function TrimStart(s: string): (r: string)
    ensures |r| <= |s| && r == s[|s| - |r|..]
    ensures r == [] || !IsWhiteSpace(r[0])
  {
    if s != [] && IsWhiteSpace(s[0]) then TrimStart(s[1..]) else s
  }

  /** The value of `c` as a digit in radix 36, or 36 when `c` is no digit at all. */
  function DigitValue(c: char): (d: nat)
    ensures d <= 36
  {
    if '0' <= c <= '9' then c as int - '0' as int
    else if 'a' <= c <= 'z' then c as int - 'a' as int + 10
    else if 'A' <= c <= 'Z' then c as int - 'A' as int + 10
    else 36
  }

  /** The longest prefix of `s` made of digits of `radix`. */
  function DigitPrefix(s: string, radix: nat): (z: string)
    ensures |z| <= |s| && z == s[..|z|]
    ensures forall i :: 0 <= i < |z| ==> DigitValue(z[i]) < radix
    ensures |z| < |s| ==> DigitValue(s[|z|]) >= radix
  {
    if s == [] || DigitValue(s[0]) >= radix then [] else [s[0]] + DigitPrefix(s[1..], radix)
  }

  /** The number written by the digits `ds` in `radix`. */
  function DigitsValue(ds: string, radix: nat): nat {
    if ds == [] then 0 else DigitsValue(ds[..|ds| - 1], radix) * radix + DigitValue(ds[|ds| - 1])
  }

  /**
   * `parseInt(s, radix)`, where radix 0 stands for an absent radix: skip
   * white space, read a sign, then the magnitude. None is NaN.
   */
  function ParseInt(input: string, radix: int): (r: Option<int>)
    ensures r.Some? ==> radix == 0 || 2 <= radix <= 36
    ensures TrimStart(input) == [] ==> r.None?
    ensures r.Some? && r.value < 0 ==> |TrimStart(input)| > 0 && TrimStart(input)[0] == '-'
  {
    if radix != 0 && (radix < 2 || radix > 36) then None
    else
      var s := TrimStart(input);
      var negative := |s| > 0 && s[0] == '-';
      var body := if |s| > 0 && (s[0] == '+' || s[0] == '-') then s[1..] else s;
      match ParseMagnitude(body, radix)
      case None => None
      case Some(m) =>
        var value: int := if negative then -(m as int) else m as int;
        Some(value)
  }

  /**
   * The unsigned part of `parseInt`: accept a `0x` prefix when the radix is
   * absent or 16, then read the longest run of digits; None when there is none.
   */
  function ParseMagnitude(s: string, radix: int): (r: Option<nat>)
    requires radix == 0 || 2 <= radix <= 36
  {
    var hex := (radix == 0 || radix == 16) && |s| >= 2 && s[0] == '0' && (s[1] == 'x' || s[1] == 'X');
    var r := if hex then 16 else if radix == 0 then 10 else radix;
    var z := DigitPrefix(if hex then s[2..] else s, r);
    if z == [] then None else Some(DigitsValue(z, r))
  }

  function DigitChar(d: nat): (c: char)
    requires d < 10
    ensures '0' <= c <= '9' && DigitValue(c) == d
  {
    ('0' as int + d) as char
  }

  /** `String(n)` for a natural number: its decimal digits. */
  function DecimalString(n: nat): (s: string)
    ensures |s| >= 1 && forall i :: 0 <= i < |s| ==> '0' <= s[i] <= '9'
  {
    if n < 10 then [DigitChar(n)] else DecimalString(n / 10) + [DigitChar(n % 10)]
  }

  lemma {:induction false} DigitsValueOfDecimal(n: nat)
    ensures DigitsValue(DecimalString(n), 10) == n
  {
    var s := DecimalString(n);
    if n >= 10 {
      DigitsValueOfDecimal(n / 10);
      assert s[..|s| - 1] == DecimalString(n / 10);
    } else {
      assert s[..|s| - 1] == [];
    }
  }

  lemma {:induction false} DigitPrefixOfDigits(s: string, radix: nat)
    requires forall i :: 0 <= i < |s| ==> DigitValue(s[i]) < radix
    ensures DigitPrefix(s, radix) == s
  {
    if s != [] {
      DigitPrefixOfDigits(s[1..], radix);
    }
  }

  /** The magnitude of a run of decimal digits, with radix 10 or none. */
  lemma MagnitudeOfDigits(s: string, radix: int)
    requires |s| >= 1 && forall i :: 0 <= i < |s| ==> '0' <= s[i] <= '9'
    requires radix == 0 || radix == 10
    ensures ParseMagnitude(s, radix) == Some(DigitsValue(s, 10))
  {
    assert !(|s| >= 2 && s[0] == '0' && (s[1] == 'x' || s[1] == 'X'));
    DigitPrefixOfDigits(s, 10);
  }

  lemma DigitIsNoWhiteSpace(c: char)
    requires '0' <= c <= '9'
    ensures !IsWhiteSpace(c)
  {
  }

  /** Without leading white space or sign, `parseInt` is its magnitude. */
  lemma ParseUnsigned(s: string, radix: int)
    requires radix == 0 || 2 <= radix <= 36
    requires s == [] || (!IsWhiteSpace(s[0]) && s[0] != '-' && s[0] != '+')
    ensures ParseMagnitude(s, radix).None? ==> ParseInt(s, radix).None?
    ensures ParseMagnitude(s, radix).Some? ==> ParseInt(s, radix) == Some(ParseMagnitude(s, radix).value as int)
  {
    assert TrimStart(s) == s;
  }

  /** `parseInt` reads a run of decimal digits, with radix 10 or none. */
  lemma ParseDigits(s: string, radix: int)
    requires |s| >= 1 && forall i :: 0 <= i < |s| ==> '0' <= s[i] <= '9'
    requires radix == 0 || radix == 10
    ensures ParseInt(s, radix) == Some(DigitsValue(s, 10))
  {
    DigitIsNoWhiteSpace(s[0]);
    ParseUnsigned(s, radix);
    MagnitudeOfDigits(s, radix);
  }

  /** `parseInt` reads back the decimal string of a natural number, with radix 10 or none. */
  lemma ParseDecimalString(n: nat, radix: int)
    requires radix == 0 || radix == 10
    ensures ParseInt(DecimalString(n), radix) == Some(n)
  {
    var digits := DecimalString(n);
    DigitsValueOfDecimal(n);
    ParseDigits(digits, radix);
  }

  // ---------------------------------------------------------------------
  // The 32-bit `&`

  const TWO_31: int := 0x8000_0000
  const TWO_32: int := 0x1_0000_0000

  /** ToUint32 of an integral number. */
  function ToUint32(x: int): (r: nat)
    ensures r < TWO_32 && (x - r) % TWO_32 == 0
  {
    x % TWO_32
  }

  /** ToInt32 of an integral number: the same value modulo 2^32, in the signed range. */
  function ToInt32(x: int): (r: int)
    ensures -TWO_31 <= r < TWO_31 && (x - r) % TWO_32 == 0
  {
    var u := ToUint32(x);
    if u >= TWO_31 then u - TWO_32 else u
  }

  function Pow2(n: nat): nat {
    if n == 0 then 1 else 2 * Pow2(n - 1)
  }

  lemma {:induction false} Pow2Add(a: nat, b: nat)
    ensures Pow2(a + b) == Pow2(a) * Pow2(b)
  {
    if a > 0 {
      Pow2Add(a - 1, b);
      assert Pow2(a + b) == 2 * Pow2(a - 1 + b);
      assert 2 * (Pow2(a - 1) * Pow2(b)) == (2 * Pow2(a - 1)) * Pow2(b);
    }
  }

  lemma Pow2Of32()
    ensures Pow2(32) == TWO_32
  {
    assert Pow2(2) == 4;
    Pow2Add(2, 2);
    Pow2Add(4, 4);
    Pow2Add(8, 8);
    Pow2Add(16, 16);
  }

  /** The low `width` bits of `a` and `b`, and-ed bit by bit. */
  function AndBits(a: nat, b: nat, width: nat): (r: nat)
    ensures r < Pow2(width)
    ensures r <= a && r <= b
  {
    if width == 0 then 0
    else
      var low := if a % 2 == 1 && b % 2 == 1 then 1 else 0;
      var high := AndBits(a / 2, b / 2, width - 1);
      assert low <= a % 2 && low <= b % 2;
      low + 2 * high
  }

  /** JavaScript's `a & b` on integral numbers. */
  function BitAnd(a: int, b: int): (r: int)
    ensures -TWO_31 <= r < TWO_31
    ensures 0 <= a < TWO_31 ==> 0 <= r <= a
    ensures 0 <= b < TWO_31 ==> 0 <= r <= b
  {
    var x := AndBits(ToUint32(a), ToUint32(b), 32);
    Pow2Of32();
    ToInt32OfUint32(x);
    assert 0 <= a < TWO_31 ==> ToUint32(a) == a;
    assert 0 <= b < TWO_31 ==> ToUint32(b) == b;
    ToInt32(x)
  }

  /** Every bit set in `v` is also set in `p`. */
  predicate BitsWithin(v: nat, p: nat)
    decreases v
  {
    v == 0 || ((v % 2 == 1 ==> p % 2 == 1) && BitsWithin(v / 2, p / 2))
  }

  /** And-ing keeps all of `b` exactly when the bits of `b` are within `a`. */
  lemma {:induction false} AndBitsKeepsAll(a: nat, b: nat, width: nat)
    requires b < Pow2(width)
    ensures AndBits(a, b, width) == b <==> BitsWithin(b, a)
  {
    if width > 0 {
      AndBitsKeepsAll(a / 2, b / 2, width - 1);
      var low := if a % 2 == 1 && b % 2 == 1 then 1 else 0;
      var high := AndBits(a / 2, b / 2, width - 1);
      assert b == b % 2 + 2 * (b / 2);
      assert low == 0 || low == 1;
      assert AndBits(a, b, width) == low + 2 * high;
      assert low + 2 * high == b <==> low == b % 2 && high == b / 2;
    }
  }

  /** And-ing with zero, on either side, gives zero. */
  lemma {:induction false} AndBitsZero(b: nat, width: nat)
    ensures AndBits(0, b, width) == 0
    ensures AndBits(b, 0, width) == 0
  {
    if width > 0 {
      AndBitsZero(b / 2, width - 1);
    }
  }

  /** ToInt32 of a value already in the unsigned 32-bit range. */
  lemma ToInt32OfUint32(u: int)
    requires 0 <= u < TWO_32
    ensures ToInt32(u) == if u < TWO_31 then u else u - TWO_32
  {
    assert ToUint32(u) == u;
  }

  /**
   * For a non-negative 32-bit `v`: `v == (a & v)` exactly when every bit of
   * `v` is set in `a`.
   */
  lemma BitAndKeepsValue(a: int, v: int)
    requires 0 <= v < TWO_31
    ensures v == BitAnd(a, v) <==> BitsWithin(v, ToUint32(a))
  {
    var p := ToUint32(a);
    assert ToUint32(v) == v;
    Pow2Of32();
    var r := AndBits(p, v, 32);
    assert r < TWO_32;
    AndBitsKeepsAll(p, v, 32);
    ToInt32OfUint32(r);
  }
}

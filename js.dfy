/**
 * The pieces of JavaScript value and string semantics that the backend's
 * handlers rely on: truthiness, `trim`, `toLowerCase`, `startsWith`,
 * `padStart`, `join`, `split(' ')[1]` and `parseInt`.
 */
module Js {

  datatype Option<+T> = None | Some(value: T)

  /** A value as it arrives in a JSON request body. Numbers are integral. */
  datatype Value = Undefined | Null | Bool(b: bool) | Num(n: int) | Str(s: string) | Obj

  /** JavaScript truthiness (`!v` is false exactly for these values). */
  predicate Truthy(v: Value) {
    match v
    case Undefined => false
    case Null => false
    case Bool(b) => b
    case Num(n) => n != 0
    case Str(s) => s != []
    case Obj => true
  }

  /** Truthiness of an optional string: absent and "" are falsy. */
  predicate Present(o: Option<string>) {
    o.Some? && o.value != []
  }

  /** `o || fallback` for an optional string. */
  function OrElse(o: Option<string>, fallback: string): (r: string)
    ensures Present(o) ==> r == o.value
    ensures !Present(o) ==> r == fallback
  {
    if Present(o) then o.value else fallback
  }

  /** `o || null` for an optional string: "" collapses to null. */
  function OrNull(o: Option<string>): (r: Option<string>)
    ensures r.Some? <==> Present(o)
    ensures r.Some? ==> r.value == o.value
  {
    if Present(o) then o else None
  }

  // ---------------------------------------------------------------------
  // Whitespace and trim
  // ---------------------------------------------------------------------

  /**
   * ECMAScript WhiteSpace and LineTerminator code points: the set that both
   * `String.prototype.trim` and the regular-expression class `\s` use.
   */
  predicate IsWhitespace(c: char) {
    c == '\t' || c == '\n' || c == '\U{000B}' || c == '\U{000C}' || c == '\r' || c == ' '
    || c == '\U{00A0}' || c == '\U{1680}' || ('\U{2000}' <= c <= '\U{200A}')
    || c == '\U{2028}' || c == '\U{2029}' || c == '\U{202F}' || c == '\U{205F}'
    || c == '\U{3000}' || c == '\U{FEFF}'
  }

  /** Neither the first nor the last character is whitespace. */
  predicate NoEdgeWhitespace(s: string) {
    s == [] || (!IsWhitespace(s[0]) && !IsWhitespace(s[|s| - 1]))
  }

  predicate AllWhitespace(s: string) {
    forall k :: 0 <= k < |s| ==> IsWhitespace(s[k])
  }

  /** Removes leading whitespace: the result is a suffix of `s`. */
  function TrimStart(s: string): (r: string)
    ensures |r| <= |s| && r == s[|s| - |r|..]
    ensures forall k :: 0 <= k < |s| - |r| ==> IsWhitespace(s[k])
    ensures r == [] || !IsWhitespace(r[0])
  {
    if s != [] && IsWhitespace(s[0]) then
      var r := TrimStart(s[1..]);
      SuffixOfTail(s, r);
      r
    else s
  }

  lemma SuffixOfTail(s: string, r: string)
    requires s != [] && |r| <= |s| - 1 && r == s[1..][|s| - 1 - |r|..]
    ensures r == s[|s| - |r|..]
  {
    assert forall k :: 0 <= k < |r| ==> r[k] == s[|s| - |r| + k];
  }

  /** Removes trailing whitespace: the result is a prefix of `s`. */
  function TrimEnd(s: string): (r: string)
    ensures |r| <= |s| && r == s[..|r|]
    ensures forall k :: |r| <= k < |s| ==> IsWhitespace(s[k])
    ensures r == [] || !IsWhitespace(r[|r| - 1])
  {
    if s != [] && IsWhitespace(s[|s| - 1]) then TrimEnd(s[..|s| - 1]) else s
  }

  lemma TrimEndKeepsFirst(s: string)
    requires s == [] || !IsWhitespace(s[0])
    ensures TrimEnd(s) == [] || !IsWhitespace(TrimEnd(s)[0])
  {
    var r := TrimEnd(s);
    if r != [] {
      assert r[0] == s[0];
    }
  }

  lemma {:induction false} TrimStartEmpty(s: string)
    ensures TrimStart(s) == [] <==> AllWhitespace(s)
  {
    if s != [] {
      if IsWhitespace(s[0]) {
        TrimStartEmpty(s[1..]);
        assert AllWhitespace(s) <==> AllWhitespace(s[1..]) by {
          assert forall k :: 0 < k < |s| ==> s[k] == s[1..][k - 1];
        }
      }
    }
  }

  lemma {:induction false} TrimEndEmpty(s: string)
    ensures TrimEnd(s) == [] <==> AllWhitespace(s)
  {
    if s != [] {
      var n := |s| - 1;
      if IsWhitespace(s[n]) {
        TrimEndEmpty(s[..n]);
        assert AllWhitespace(s) <==> AllWhitespace(s[..n]) by {
          assert forall k :: 0 <= k < n ==> s[k] == s[..n][k];
        }
      }
    }
  }

  lemma TrimEmptyIffAllWhitespace(s: string)
    ensures TrimEnd(TrimStart(s)) == [] <==> AllWhitespace(s)
  {
    var t := TrimStart(s);
    TrimStartEmpty(s);
    TrimEndEmpty(t);
    assert AllWhitespace(t) ==> t == [];
  }

  /** `s.trim()`. */
  function Trim(s: string): (r: string)
    ensures |r| <= |s|
    ensures NoEdgeWhitespace(r)
    ensures r == [] <==> AllWhitespace(s)
    ensures exists i, j :: 0 <= i <= j <= |s| && r == s[i..j] && AllWhitespace(s[..i]) && AllWhitespace(s[j..])
  {
    TrimEndKeepsFirst(TrimStart(s));
    TrimEmptyIffAllWhitespace(s);
    TrimParts(s, TrimStart(s), TrimEnd(TrimStart(s)));
    TrimEnd(TrimStart(s))
  }

  /**
   * Removing whitespace from the front of `s` (giving `t`) and then from the
   * back of `t` (giving `r`) keeps a slice of `s` with only whitespace on
   * either side of it.
   */
  lemma TrimParts(s: string, t: string, r: string)
    requires |t| <= |s| && t == s[|s| - |t|..] && forall k :: 0 <= k < |s| - |t| ==> IsWhitespace(s[k])
    requires |r| <= |t| && r == t[..|r|] && forall k :: |r| <= k < |t| ==> IsWhitespace(t[k])
    ensures var i := |s| - |t|;
            && r == s[i..i + |r|] && AllWhitespace(s[..i]) && AllWhitespace(s[i + |r|..])
  {
    var i := |s| - |t|;
    assert r == s[i..][..|r|];
    WhitespacePrefix(s, i);
    WhitespaceSuffix(s, t, i, |r|);
  }

  lemma WhitespacePrefix(s: string, i: int)
    requires 0 <= i <= |s| && forall k :: 0 <= k < i ==> IsWhitespace(s[k])
    ensures AllWhitespace(s[..i])
  {
    assert forall k :: 0 <= k < i ==> s[..i][k] == s[k];
  }

  lemma WhitespaceSuffix(s: string, t: string, i: int, m: int)
    requires 0 <= i <= |s| && t == s[i..] && 0 <= m <= |t|
    requires forall k :: m <= k < |t| ==> IsWhitespace(t[k])
    ensures AllWhitespace(s[i + m..])
  {
    var u := s[i + m..];
    assert forall k :: 0 <= k < |u| ==> u[k] == t[m + k];
  }



  /** A string without edge whitespace is its own trim. */
  lemma TrimNoEdge(s: string)
    requires NoEdgeWhitespace(s)
    ensures Trim(s) == s
  {
    assert TrimStart(s) == s;
    assert TrimEnd(s) == s;
  }

  /** Trimming twice is trimming once. */
  lemma TrimIdempotent(s: string)
    ensures Trim(Trim(s)) == Trim(s)
  {
    TrimNoEdge(Trim(s));
  }

  // ---------------------------------------------------------------------
  // Case mapping, prefixes, padding, joining, splitting
  // ---------------------------------------------------------------------

  predicate IsUpper(c: char) {
    'A' <= c <= 'Z'
  }

  function LowerChar(c: char): (r: char)
    ensures !IsUpper(r)
    ensures IsWhitespace(r) <==> IsWhitespace(c)
    ensures r == '@' <==> c == '@'
    ensures r == '.' <==> c == '.'
  {
    if IsUpper(c) then (c as int + 32) as char else c
  }

  /** `s.toLowerCase()` restricted to the ASCII letters. */
  function ToLower(s: string): (r: string)
    ensures |r| == |s|
    ensures forall k :: 0 <= k < |r| ==> r[k] == LowerChar(s[k])
  {
    seq(|s|, k requires 0 <= k < |s| => LowerChar(s[k]))
  }

  lemma ToLowerIdempotent(s: string)
    ensures ToLower(ToLower(s)) == ToLower(s)
  {
  }

  /** `s.startsWith(p)`. */
  predicate StartsWith(s: string, p: string) {
    |p| <= |s| && s[..|p|] == p
  }

  /** `s.padStart(width, fill)` with a one-character fill string. */
  function PadStart(s: string, width: int, fill: char): (r: string)
    ensures |r| == if |s| >= width then |s| else width
    ensures r[|r| - |s|..] == s
    ensures forall k :: 0 <= k < |r| - |s| ==> r[k] == fill
  {
    if |s| >= width then s else seq(width - |s|, _ => fill) + s
  }

  /** `xs.join(sep)`. */
  function Join(xs: seq<string>, sep: string): (r: string)
  {
    if xs == [] then []
    else if |xs| == 1 then xs[0]
    else Join(xs[..|xs| - 1], sep) + sep + xs[|xs| - 1]
  }

  /** A join with a non-empty separator is empty only for no parts or one empty part. */
  lemma {:induction false} JoinEmpty(xs: seq<string>, sep: string)
    requires sep != []
    ensures Join(xs, sep) == [] <==> xs == [] || xs == [[]]
  {
    if |xs| > 1 {
      assert |Join(xs, sep)| >= |sep|;
    }
  }

  /** Position of the first `c` in `s`, or `|s|` when there is none. */
  function IndexOf(s: string, c: char): (i: nat)
    ensures i <= |s|
    ensures i < |s| ==> s[i] == c
    ensures forall k :: 0 <= k < i ==> s[k] != c
  {
    if s == [] then 0
    else if s[0] == c then 0
    else 1 + IndexOf(s[1..], c)
  }

  /**
   * `s.split(' ')[1]`: the text between the first and the second space, or
   * `undefined` when `s` holds no space.
   */
  function SplitSecond(s: string): (r: Option<string>)
    ensures r.None? <==> ' ' !in s
    ensures r.Some? ==> ' ' !in r.value
    ensures r.Some? ==>
      exists i :: 0 <= i < |s| && s[i] == ' ' && ' ' !in s[..i]
                  && i + 1 + |r.value| <= |s| && s[i + 1..i + 1 + |r.value|] == r.value
                  && (i + 1 + |r.value| == |s| || s[i + 1 + |r.value|] == ' ')
  {
    var i := IndexOf(s, ' ');
    if i == |s| then
      assert ' ' !in s by {
        forall k | 0 <= k < |s| ensures s[k] != ' ' { }
      }
      None
    else
      var rest := s[i + 1..];
      var j := IndexOf(rest, ' ');
      assert ' ' !in s[..i] by {
        forall k | 0 <= k < i ensures s[..i][k] != ' ' { }
      }
      assert s[i + 1..i + 1 + j] == rest[..j];
      Some(rest[..j])
  }

  /**
   * Whatever the first word is, and whatever follows a second space, the
   * second word of `w + " " + t + rest` is `t`.
   */
  lemma SplitSecondOf(w: string, t: string, rest: string)
    requires ' ' !in w && ' ' !in t
    requires rest == [] || rest[0] == ' '
    ensures SplitSecond(w + " " + t + rest) == Some(t)
  {
    var s := w + " " + t + rest;
    var i := IndexOf(s, ' ');
    assert s[|w|] == ' ';
    assert i == |w|;
    var u := s[i + 1..];
    assert u == t + rest;
    var j := IndexOf(u, ' ');
    assert forall k :: 0 <= k < |t| ==> u[k] == t[k];
    assert rest != [] ==> u[|t|] == ' ';
    assert j == |t|;
    assert u[..j] == t;
  }

  // ---------------------------------------------------------------------
  // parseInt
  // ---------------------------------------------------------------------

  /** The digit value of `c` in base `radix` (0-9, then a-z / A-Z), if any. */
  function DigitValue(c: char, radix: nat): (r: Option<nat>)
    ensures r.Some? ==> r.value < radix
  {
    var v :=
      if '0' <= c <= '9' then c as int - '0' as int
      else if 'a' <= c <= 'z' then c as int - 'a' as int + 10
      else if 'A' <= c <= 'Z' then c as int - 'A' as int + 10
      else 36;
    if v < radix then Some(v) else None
  }

  /** Length of the longest prefix of `s` made of base-`radix` digits. */
  function DigitRun(s: string, radix: nat): (n: nat)
    ensures n <= |s|
    ensures forall k :: 0 <= k < n ==> DigitValue(s[k], radix).Some?
    ensures n < |s| ==> DigitValue(s[n], radix).None?
  {
    if s == [] || DigitValue(s[0], radix).None? then 0
    else 1 + DigitRun(s[1..], radix)
  }

  /** The value of a string of base-`radix` digits, most significant first. */
  function DigitsValue(d: string, radix: nat): nat
    requires forall k :: 0 <= k < |d| ==> DigitValue(d[k], radix).Some?
  {
    if d == [] then 0
    else
      var high := DigitsValue(d[..|d| - 1], radix);
      NatProduct(high, radix);
      high * radix + DigitValue(d[|d| - 1], radix).value
  }

  lemma NatProduct(a: nat, b: nat)
    ensures a * b >= 0
  {
  }

  /** The value of the longest digit prefix of `body`, or NaN when it is empty. */
  function ParseDigits(body: string, radix: nat): (r: Option<int>)
    ensures r.None? <==> body == [] || DigitValue(body[0], radix).None?
    ensures r.Some? ==> r.value >= 0
  {
    var n := DigitRun(body, radix);
    if n == 0 then None else Some(DigitsValue(body[..n], radix) as int)
  }

  /** The unsigned part of `parseInt`: an optional "0x"/"0X" selects base 16. */
  function ParseMagnitude(u: string, hexPrefix: bool): Option<int>
  {
    if hexPrefix && |u| >= 2 && u[0] == '0' && (u[1] == 'x' || u[1] == 'X')
    then ParseDigits(u[2..], 16)
    else ParseDigits(u, 10)
  }

  /**
   * `parseInt(s, 10)` (hexPrefix false) or `parseInt(s)` (hexPrefix true,
   * where a "0x"/"0X" after the sign switches to base 16). `None` is NaN.
   */
  function ParseInt(s: string, hexPrefix: bool): (r: Option<int>)
    ensures AllWhitespace(s) ==> r.None?
  {
    var t := TrimStart(s);
    if t == [] then None
    else if t[0] == '-' then
      match ParseMagnitude(t[1..], hexPrefix)
      case None => None
      case Some(v) => Some(-v)
    else if t[0] == '+' then ParseMagnitude(t[1..], hexPrefix)
    else ParseMagnitude(t, hexPrefix)
  }

  /** The decimal numeral of `n`, without sign or leading zeros. */
  function Decimal(n: nat): (r: string)
    ensures r != []
    ensures AllDecimalDigits(r)
  {
    if n < 10 then [('0' as int + n) as char]
    else Decimal(n / 10) + [('0' as int + n % 10) as char]
  }

  lemma {:induction false} DecimalValue(n: nat)
    ensures forall k :: 0 <= k < |Decimal(n)| ==> DigitValue(Decimal(n)[k], 10).Some?
    ensures DigitsValue(Decimal(n), 10) == n
  {
    var d := Decimal(n);
    if n >= 10 {
      DecimalValue(n / 10);
      assert d[..|d| - 1] == Decimal(n / 10);
    }
  }

  lemma ParseDigitsDecimal(n: nat)
    ensures ParseDigits(Decimal(n), 10) == Some(n as int)
  {
    var d := Decimal(n);
    DecimalValue(n);
    assert DigitRun(d, 10) == |d|;
    assert d[..|d|] == d;
  }

  lemma TrimStartClean(s: string)
    requires s != [] && !IsWhitespace(s[0])
    ensures TrimStart(s) == s
  {
  }

  lemma ParseIntUnsigned(u: string, hexPrefix: bool)
    requires u != [] && !IsWhitespace(u[0]) && u[0] != '-' && u[0] != '+'
    ensures ParseInt(u, hexPrefix) == ParseMagnitude(u, hexPrefix)
  {
    TrimStartClean(u);
  }

  lemma MagnitudeNoPrefix(u: string, hexPrefix: bool)
    requires |u| < 2 || (u[1] != 'x' && u[1] != 'X')
    ensures ParseMagnitude(u, hexPrefix) == ParseDigits(u, 10)
  {
  }

  predicate AllDecimalDigits(d: string) {
    forall k :: 0 <= k < |d| ==> '0' <= d[k] <= '9'
  }

  lemma ParseIntOfDigits(d: string, hexPrefix: bool)
    requires d != [] && AllDecimalDigits(d)
    ensures ParseInt(d, hexPrefix) == ParseDigits(d, 10)
    ensures forall v :: ParseDigits(d, 10) == Some(v) ==> ParseInt("-" + d, hexPrefix) == Some(-v)
  {
    assert '0' <= d[0] <= '9';
    ParseIntUnsigned(d, hexPrefix);
    if |d| >= 2 {
      assert '0' <= d[1] <= '9';
    }
    MagnitudeNoPrefix(d, hexPrefix);
    var s := "-" + d;
    TrimStartClean(s);
    assert s[1..] == d;
  }

  /** `parseInt` reads back every decimal numeral, in either radix mode. */
  lemma ParseIntDecimal(n: nat, hexPrefix: bool)
    ensures ParseInt(Decimal(n), hexPrefix) == Some(n as int)
    ensures ParseInt("-" + Decimal(n), hexPrefix) == Some(-(n as int))
  {
    var d := Decimal(n);
    ParseDigitsDecimal(n);
    ParseIntOfDigits(d, hexPrefix);
    var v: int := n;
    assert ParseDigits(d, 10) == Some(v);
    assert ParseInt("-" + d, hexPrefix) == Some(-v);
  }

  /** Text whose first character is neither whitespace, a sign nor a digit parses to NaN. */
  lemma ParseIntNoDigits(s: string)
    requires s == [] || (DigitValue(s[0], 10).None? && s[0] != '-' && s[0] != '+' && !IsWhitespace(s[0]))
    ensures ParseInt(s, false) == None
    ensures ParseInt(s, true) == None
  {
  }
}

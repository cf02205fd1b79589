/**
 * Email validation and normalisation from backend/controllers/authController.js
 * (`isValidEmail`, `normalizeEmail`).
 */
module Email {
  import opened Js

  /** A character of the class `[^\s@]`. */
  predicate AtomChar(c: char) {
    !IsWhitespace(c) && c != '@'
  }

  /** Every character except the one at `i` is in `[^\s@]`. */
  predicate AtomsExcept(t: string, i: int) {
    forall k :: 0 <= k < |t| && k != i ==> AtomChar(t[k])
  }

  /**
   * `/^[^\s@]+@[^\s@]+\.[^\s@]+$/.test(t)`, stated by positions: an '@' at
   * `i` with text before it, a '.' at `j` with text between the '@' and it
   * and text after it, and every other character in `[^\s@]`.
   */
  predicate EmailShape(t: string) {
    exists i, j | 0 < i < |t| && 0 < j < |t| :: i + 1 < j && j + 1 < |t| && t[i] == '@' && t[j] == '.' && AtomsExcept(t, i)
  }

  /** `isValidEmail`: false for non-strings, otherwise the pattern on the trimmed text. */
  predicate IsValidEmail(email: Value) {
    email.Str? && EmailShape(Trim(email.s))
  }

  /** The number of occurrences of `c` in `s`. */
  function Count(s: string, c: char): nat {
    if s == [] then 0 else Count(s[..|s| - 1], c) + (if s[|s| - 1] == c then 1 else 0)
  }

  lemma {:induction false} CountAppend(a: string, b: string, c: char)
    ensures Count(a + b, c) == Count(a, c) + Count(b, c)
  {
    if b != [] {
      assert (a + b)[..|a + b| - 1] == a + b[..|b| - 1];
      CountAppend(a, b[..|b| - 1], c);
    } else {
      assert a + b == a;
    }
  }

  lemma {:induction false} CountAbsent(s: string, c: char)
    requires forall k :: 0 <= k < |s| ==> s[k] != c
    ensures Count(s, c) == 0
  {
    if s != [] {
      CountAbsent(s[..|s| - 1], c);
    }
  }

  /** A text whose only non-atom character is an '@' at `i` holds exactly one '@'. */
  lemma OneAt(t: string, i: nat)
    requires i < |t| && t[i] == '@' && AtomsExcept(t, i)
    ensures Count(t, '@') == 1
  {
    assert t == t[..i] + ([t[i]] + t[i + 1..]);
    CountAbsent(t[..i], '@');
    CountAbsent(t[i + 1..], '@');
    CountAppend([t[i]], t[i + 1..], '@');
    assert Count([t[i]], '@') == 1 by {
      assert [t[i]][..0] == [];
    }
    CountAppend(t[..i], [t[i]] + t[i + 1..], '@');
  }

  /** The only '@' of such a text is the first one. */
  lemma FirstAt(t: string, i: nat)
    requires i < |t| && t[i] == '@' && AtomsExcept(t, i)
    ensures IndexOf(t, '@') == i
  {
  }

  /** Atoms and the '@' are all non-whitespace. */
  lemma NoWhitespaceInShape(t: string, i: nat)
    requires i < |t| && t[i] == '@' && AtomsExcept(t, i)
    ensures forall k :: 0 <= k < |t| ==> !IsWhitespace(t[k])
  {
    forall k | 0 <= k < |t| ensures !IsWhitespace(t[k]) {
      if k != i {
        assert AtomChar(t[k]);
      }
    }
  }

  /**
   * What the pattern admits, spelled out: the text is whitespace-free, holds
   * exactly one '@', has something before it, and the part after it holds a
   * '.' with something on either side.
   */
  lemma ValidEmailParts(t: string)
    requires EmailShape(t)
    ensures Count(t, '@') == 1
    ensures forall k :: 0 <= k < |t| ==> !IsWhitespace(t[k])
    ensures 0 < IndexOf(t, '@') < |t| && '.' in t[IndexOf(t, '@') + 2..|t| - 1]
  {
    var i, j :| 0 < i < |t| && 0 < j < |t| && i + 1 < j && j + 1 < |t| && t[i] == '@' && t[j] == '.' && AtomsExcept(t, i);
    OneAt(t, i);
    NoWhitespaceInShape(t, i);
    FirstAt(t, i);
    var domain := t[i + 2..|t| - 1];
    assert domain[j - i - 2] == '.';
  }

  /** The converse: any text of that form matches the pattern. */
  lemma PartsMakeValidEmail(local: string, domain: string, tld: string)
    requires local != [] && domain != [] && tld != []
    requires forall k :: 0 <= k < |local| ==> AtomChar(local[k])
    requires forall k :: 0 <= k < |domain| ==> AtomChar(domain[k])
    requires forall k :: 0 <= k < |tld| ==> AtomChar(tld[k])
    ensures EmailShape(local + "@" + domain + "." + tld)
  {
    var t := local + "@" + domain + "." + tld;
    var i, j := |local|, |local| + 1 + |domain|;
    assert t[i] == '@' && t[j] == '.';
    forall k | 0 <= k < |t| && k != i ensures AtomChar(t[k]) {
      if k < i {
        assert t[k] == local[k];
      } else if k < j {
        assert t[k] == domain[k - i - 1];
      } else if k > j {
        assert t[k] == tld[k - j - 1];
      }
    }
  }

  /** `normalizeEmail`: "" for non-strings, otherwise trimmed and lower-cased. */
  function NormalizeEmail(email: Value): (r: string)
    ensures NoEdgeWhitespace(r)
    ensures forall k :: 0 <= k < |r| ==> !IsUpper(r[k])
    ensures !email.Str? ==> r == []
  {
    if !email.Str? then [] else ToLower(Trim(email.s))
  }

  /** Lower-casing keeps whitespace where it was. */
  lemma LowerNoEdge(s: string)
    requires NoEdgeWhitespace(s)
    ensures NoEdgeWhitespace(ToLower(s))
  {
  }

  /** Normalising an already normalised address changes nothing. */
  lemma NormalizeIdempotent(email: Value)
    ensures NormalizeEmail(Str(NormalizeEmail(email))) == NormalizeEmail(email)
  {
    var n := NormalizeEmail(email);
    TrimNoEdge(n);
    ToLowerIdempotent(n);
    if email.Str? {
      assert n == ToLower(Trim(email.s));
    }
  }

  lemma {:induction false} TrimStartLower(s: string)
    ensures TrimStart(ToLower(s)) == ToLower(TrimStart(s))
  {
    if s != [] {
      assert ToLower(s)[1..] == ToLower(s[1..]);
      if IsWhitespace(s[0]) {
        TrimStartLower(s[1..]);
      }
    }
  }

  lemma {:induction false} TrimEndLower(s: string)
    ensures TrimEnd(ToLower(s)) == ToLower(TrimEnd(s))
  {
    if s != [] {
      assert ToLower(s)[..|s| - 1] == ToLower(s[..|s| - 1]);
      if IsWhitespace(s[|s| - 1]) {
        TrimEndLower(s[..|s| - 1]);
      }
    }
  }

  /** Trimming and lower-casing commute. */
  lemma TrimLowerCommute(s: string)
    ensures Trim(ToLower(s)) == ToLower(Trim(s))
  {
    TrimStartLower(s);
    TrimEndLower(TrimStart(s));
  }

  /** Addresses that differ only in letter case normalise to the same text. */
  lemma CaseInsensitive(a: string, b: string)
    requires ToLower(a) == ToLower(b)
    ensures NormalizeEmail(Str(a)) == NormalizeEmail(Str(b))
  {
    TrimLowerCommute(a);
    TrimLowerCommute(b);
  }

  lemma {:induction false} TrimStartLeading(w: string, s: string)
    requires AllWhitespace(w)
    ensures TrimStart(w + s) == TrimStart(s)
  {
    if w != [] {
      assert (w + s)[1..] == w[1..] + s;
      TrimStartLeading(w[1..], s);
    } else {
      assert w + s == s;
    }
  }

  lemma {:induction false} TrimEndTrailing(s: string, w: string)
    requires AllWhitespace(w)
    ensures TrimEnd(s + w) == TrimEnd(s)
  {
    if w != [] {
      assert (s + w)[..|s + w| - 1] == s + w[..|w| - 1];
      TrimEndTrailing(s, w[..|w| - 1]);
    } else {
      assert s + w == s;
    }
  }

  /** Surrounding whitespace does not distinguish two addresses. */
  lemma SurroundingWhitespace(w1: string, s: string, w2: string)
    requires AllWhitespace(w1) && AllWhitespace(w2)
    ensures NormalizeEmail(Str(w1 + s + w2)) == NormalizeEmail(Str(s))
  {
    var x := w1 + s + w2;
    assert x == w1 + (s + w2);
    TrimStartLeading(w1, s + w2);
    TrimStartKeepsTail(s, w2);
    var t := TrimStart(s);
    if t != [] {
      TrimEndTrailing(t, w2);
      assert TrimEnd(TrimStart(x)) == TrimEnd(t);
    } else {
      assert TrimStart(x) == [];
    }
    assert Trim(x) == Trim(s);
  }

  lemma {:induction false} TrimStartKeepsTail(s: string, w: string)
    requires AllWhitespace(w)
    ensures TrimStart(s + w) == if TrimStart(s) == [] then [] else TrimStart(s) + w
  {
    if s == [] {
      assert s + w == w + [];
      TrimStartLeading(w, []);
    } else {
      assert (s + w)[0] == s[0];
      if IsWhitespace(s[0]) {
        assert (s + w)[1..] == s[1..] + w;
        TrimStartKeepsTail(s[1..], w);
      }
    }
  }

  /** Lower-casing keeps the '@', the '.' and the atoms where they are. */
  lemma LowerKeepsShape(t: string)
    requires EmailShape(t)
    ensures EmailShape(ToLower(t))
  {
    var n := ToLower(t);
    var i, j :| 0 < i < |t| && 0 < j < |t| && i + 1 < j && j + 1 < |t| && t[i] == '@' && t[j] == '.' && AtomsExcept(t, i);
    assert n[i] == '@' && n[j] == '.';
    assert AtomsExcept(n, i) by {
      forall k | 0 <= k < |n| && k != i ensures AtomChar(n[k]) {
        assert AtomChar(t[k]);
      }
    }
  }

  /** A valid address stays valid once normalised. */
  lemma NormalizeKeepsValid(email: Value)
    requires IsValidEmail(email)
    ensures IsValidEmail(Str(NormalizeEmail(email)))
  {
    var t := Trim(email.s);
    var n := ToLower(t);
    assert NormalizeEmail(email) == n;
    LowerKeepsShape(t);
    LowerNoEdge(t);
    TrimNoEdge(n);
  }
}

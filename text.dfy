/** Character classes and string helpers used by the wikitext matchers.
    Strings are sequences of Unicode scalar values, as in Python 3. */
module Text {

  /** Python's `\w` on `str` patterns: a character for which `str.isalnum()`
      holds, or the underscore. The classification is written out for
      U+0000..U+024F (Basic Latin, Latin-1 Supplement, Latin Extended-A and -B);
      every other code point is treated as a non-word character. */
  predicate IsWordChar(c: char)
  {
    || ('a' <= c <= 'z') || ('A' <= c <= 'Z') || ('0' <= c <= '9') || c == '_'
    || c == '\U{00AA}' || c == '\U{00B2}' || c == '\U{00B3}' || c == '\U{00B5}'
    || c == '\U{00B9}' || c == '\U{00BA}' || c == '\U{00BC}' || c == '\U{00BD}' || c == '\U{00BE}'
    || ('\U{00C0}' <= c <= '\U{00FF}' && c != '\U{00D7}' && c != '\U{00F7}')
    || ('\U{0100}' <= c <= '\U{024F}')
  }

  /** Letters with diacritics, digits and the underscore are word
      characters; the template separators, spaces and quote marks are not. */
  lemma WordCharFacts()
    ensures IsWordChar('\U{00E4}') && IsWordChar('\U{00DF}') && IsWordChar('\U{00D6}') && IsWordChar('7') && IsWordChar('_')
    ensures !IsWordChar('|') && !IsWordChar(' ') && !IsWordChar('=') && !IsWordChar('}') && !IsWordChar('\U{2013}')
  {
  }

  /** Python's `\d`, restricted to the ASCII digits. */
  predicate IsDecimalDigit(c: char)
  {
    '0' <= c <= '9'
  }

  /** Python's `str.isspace()`: the characters `str.strip()` removes by default. */
  predicate IsSpace(c: char)
  {
    || ('\t' <= c <= '\r') || ('\U{001C}' <= c <= ' ') || c == '\U{0085}' || c == '\U{00A0}'
    || c == '\U{1680}' || ('\U{2000}' <= c <= '\U{200A}') || c == '\U{2028}' || c == '\U{2029}'
    || c == '\U{202F}' || c == '\U{205F}' || c == '\U{3000}'
  }

  /** Line ends, tabs and the no-break space are whitespace; letters and the
      quote characters an example is stripped of are not. */
  lemma SpaceFacts()
    ensures IsSpace(' ') && IsSpace('\n') && IsSpace('\t') && IsSpace('\r') && IsSpace('\U{00A0}') && IsSpace('\U{3000}')
    ensures !IsSpace('a') && !IsSpace('\U{201E}') && !IsSpace('\U{00BB}') && !IsSpace('\U{200B}')
  {
  }

  /** `lit` occurs in `s` starting at index `i`. */
  predicate HasAt(s: string, i: int, lit: string)
  {
    0 <= i && i + |lit| <= |s| && s[i..i + |lit|] == lit
  }

  /** Python's `s.startswith(lit)`. */
  predicate StartsWith(s: string, lit: string)
  {
    HasAt(s, 0, lit)
  }

  /** Python's `lit in s` on strings. */
  predicate Contains(s: string, lit: string)
  {
    exists i | 0 <= i <= |s| - |lit| :: HasAt(s, i, lit)
  }

  /** The characters a `strip` call removes: `Whitespace` for `str.strip()`
      without argument, `Chars(cs)` for `str.strip(cs)`. */
  datatype StripSet = Whitespace | Chars(cs: string)

  predicate Stripped(strip: StripSet, c: char)
  {
    match strip
    case Whitespace => IsSpace(c)
    case Chars(cs) => c in cs
  }

  /** Where `lstrip` stops when it starts at `i`: the first index from `i` on
      whose character is not stripped, or `|s|`. */
  function StripStart(s: string, strip: StripSet, i: nat): (a: nat)
    requires i <= |s|
    ensures i <= a <= |s|
    ensures forall k | i <= k < a :: Stripped(strip, s[k])
    ensures a < |s| ==> !Stripped(strip, s[a])
    decreases |s| - i
  {
    if i < |s| && Stripped(strip, s[i]) then StripStart(s, strip, i + 1) else i
  }

  /** Where `rstrip` of `s[lo..j]` stops: the end of what is left once the
      trailing stripped characters are dropped. */
  function StripEnd(s: string, strip: StripSet, lo: nat, j: nat): (b: nat)
    requires lo <= j <= |s|
    ensures lo <= b <= j
    ensures forall k | b <= k < j :: Stripped(strip, s[k])
    ensures b > lo ==> !Stripped(strip, s[b - 1])
    decreases j - lo
  {
    if j > lo && Stripped(strip, s[j - 1]) then StripEnd(s, strip, lo, j - 1) else j
  }

  /** Python's `s.strip(chars)`: removes the characters satisfying `strip`
      from both ends. The result is the part of `s` that starts where
      `lstrip` stops, with only stripped characters before and after it; it
      neither starts nor ends with such a character, and it is empty exactly
      when every character of `s` is stripped. */
  function Strip(s: string, strip: StripSet): (r: string)
    ensures HasAt(s, StripStart(s, strip, 0), r)
    ensures forall i | 0 <= i < StripStart(s, strip, 0) :: Stripped(strip, s[i])
    ensures forall i | StripStart(s, strip, 0) + |r| <= i < |s| :: Stripped(strip, s[i])
    ensures r != [] ==> !Stripped(strip, r[0]) && !Stripped(strip, r[|r| - 1])
    ensures r == [] <==> forall i | 0 <= i < |s| :: Stripped(strip, s[i])
    ensures forall c | c in r :: c in s
  {
    var a := StripStart(s, strip, 0);
    var b := StripEnd(s, strip, a, |s|);
    var r := s[a..b];
    assert r != [] ==> r[0] == s[a] && r[|r| - 1] == s[b - 1];
    HasAtChars(s, a, r);
    r
  }

  /** Python's `s.replace("\n", "")`. */
  function RemoveNewlines(s: string): (r: string)
    ensures '\n' !in r
    ensures forall c | c in r :: c in s
    ensures '\n' !in s ==> r == s
    ensures |r| <= |s|
  {
    if s == [] then []
    else if s[0] == '\n' then RemoveNewlines(s[1..])
    else [s[0]] + RemoveNewlines(s[1..])
  }

  /** Only the newlines go: every other character stays as often as it was. */
  lemma {:induction false} RemoveNewlinesCounts(s: string)
    ensures multiset(RemoveNewlines(s)) == multiset(s)['\n' := 0]
  {
    if s != [] {
      assert s == [s[0]] + s[1..];
      RemoveNewlinesCounts(s[1..]);
    }
  }

  /** Removing newlines works piece by piece, so every other character keeps
      its place in order: with the one-character cases the contract of
      `RemoveNewlines` states, this fixes the result. */
  lemma {:induction false} RemoveNewlinesAppend(a: string, b: string)
    ensures RemoveNewlines(a + b) == RemoveNewlines(a) + RemoveNewlines(b)
    decreases |a|
  {
    if a != [] {
      assert (a + b)[0] == a[0] && (a + b)[1..] == a[1..] + b;
      RemoveNewlinesAppend(a[1..], b);
      if a[0] != '\n' {
        assert RemoveNewlines(a + b) == [a[0]] + RemoveNewlines(a[1..] + b);
        assert RemoveNewlines(a) == [a[0]] + RemoveNewlines(a[1..]);
      }
    } else {
      assert a + b == b;
    }
  }

  /** A literal made of two parts occurs at `i` exactly when the first part
      does and the second follows it. */
  lemma HasAtAppend(s: string, i: int, a: string, b: string)
    ensures HasAt(s, i, a + b) <==> HasAt(s, i, a) && HasAt(s, i + |a|, b)
  {
    if HasAt(s, i, a + b) {
      assert s[i..i + |a|] == (a + b)[..|a|];
      assert s[i + |a|..i + |a| + |b|] == (a + b)[|a|..];
    }
    if HasAt(s, i, a) && HasAt(s, i + |a|, b) {
      assert s[i..i + |a| + |b|] == s[i..i + |a|] + s[i + |a|..i + |a| + |b|];
    }
  }

  /** Three texts found one after another form their concatenation. */
  lemma HasAtWrap(s: string, i: int, a: string, b: string, c: string)
    requires HasAt(s, i, a) && HasAt(s, i + |a|, b) && HasAt(s, i + |a| + |b|, c)
    ensures HasAt(s, i, a + b + c)
  {
    HasAtAppend(s, i, a, b);
    HasAtAppend(s, i, a + b, c);
  }

  /** The three parts of a concatenation found at `i`, one after another. */
  lemma HasAtUnwrap(s: string, i: int, a: string, b: string, c: string)
    requires HasAt(s, i, a + b + c)
    ensures HasAt(s, i, a) && HasAt(s, i + |a|, b) && HasAt(s, i + |a| + |b|, c)
  {
    HasAtAppend(s, i, a + b, c);
    HasAtAppend(s, i, a, b);
  }

  /** The three parts of `a + b + c`, cut back out. */
  lemma ConcatParts(r: string, a: string, b: string, c: string)
    requires r == a + b + c
    ensures r[..|a|] == a
    ensures HasAt(r, |a|, b)
    ensures r[|a| + |b|..] == c
  {
    assert r[|a|..|a| + |b|] == b;
  }

  /** Every character of a text occurring in `s` is a character of `s`. */
  lemma HasAtChars(s: string, i: int, t: string)
    requires HasAt(s, i, t)
    ensures forall c | c in t :: c in s
  {
    forall c | c in t ensures c in s {
      var k :| 0 <= k < |t| && t[k] == c;
      assert s[i + k] == c;
    }
  }

  /** Inside an occurrence of `w` at `o`, a literal occurs in `s` exactly where
      it occurs in `w`. */
  lemma HasAtWithin(s: string, o: int, w: string, j: int, lit: string)
    requires HasAt(s, o, w) && o <= j && j + |lit| <= o + |w|
    ensures HasAt(s, j, lit) <==> HasAt(w, j - o, lit)
  {
    var a := s[j..j + |lit|];
    var b := w[j - o..j - o + |lit|];
    forall k | 0 <= k < |lit| ensures a[k] == b[k] {
      assert s[o..o + |w|][j - o + k] == s[j + k];
    }
    assert a == b;
  }

  /** Where `s.strip(p).strip(q)` starts in `s`. */
  function StripTwiceStart(s: string, p: StripSet, q: StripSet): nat
  {
    StripStart(s, p, 0) + StripStart(Strip(s, p), q, 0)
  }

  /** `s.strip(p).strip(q)`: one contiguous part of `s`, starting where the
      two `lstrip`s stop. */
  function StripTwice(s: string, p: StripSet, q: StripSet): (c: string)
    ensures HasAt(s, StripTwiceStart(s, p, q), c)
  {
    StripTwiceAt(s, p, q);
    Strip(Strip(s, p), q)
  }

  /** `s.strip(p).strip(q)` neither starts nor ends with a `q` character. */
  lemma StripTwiceEnds(s: string, p: StripSet, q: StripSet)
    ensures var c := StripTwice(s, p, q);
      c != [] ==> !Stripped(q, c[0]) && !Stripped(q, c[|c| - 1])
  {
  }

  /** Where the part `s.strip(p).strip(q)` lies in `s`. */
  lemma StripTwiceAt(s: string, p: StripSet, q: StripSet)
    ensures HasAt(s, StripTwiceStart(s, p, q), Strip(Strip(s, p), q))
  {
    var w := Strip(s, p);
    var a := StripStart(s, p, 0);
    var b := StripStart(w, q, 0);
    HasAtWithin(s, a, w, a + b, Strip(w, q));
  }

  /** Everything `s.strip(p).strip(q)` cuts off, on either side, satisfies
      `p` or `q`. */
  lemma StripTwiceTrimmed(s: string, p: StripSet, q: StripSet)
    ensures var o := StripTwiceStart(s, p, q); var c := StripTwice(s, p, q);
      && o + |c| <= |s|
      && (forall i | 0 <= i < o :: Stripped(p, s[i]) || Stripped(q, s[i]))
      && (forall i | o + |c| <= i < |s| :: Stripped(p, s[i]) || Stripped(q, s[i]))
  {
    var w := Strip(s, p);
    var c := Strip(w, q);
    NestedSlice(s, p, q, w, c, StripStart(s, p, 0), StripStart(w, q, 0));
  }

  /** A part `c` at `b` of a part `w` at `a` of `s`, each with only `p`
      characters (for `w`) or `q` characters (for `c`) around it. */
  lemma NestedSlice(s: string, p: StripSet, q: StripSet, w: string, c: string, a: nat, b: nat)
    requires HasAt(s, a, w) && HasAt(w, b, c)
    requires forall i | 0 <= i < a :: Stripped(p, s[i])
    requires forall i | a + |w| <= i < |s| :: Stripped(p, s[i])
    requires forall i | 0 <= i < b :: Stripped(q, w[i])
    requires forall i | b + |c| <= i < |w| :: Stripped(q, w[i])
    ensures HasAt(s, a + b, c)
    ensures forall i | 0 <= i < a + b :: Stripped(p, s[i]) || Stripped(q, s[i])
    ensures forall i | a + b + |c| <= i < |s| :: Stripped(p, s[i]) || Stripped(q, s[i])
  {
    forall i | a <= i < a + |w| ensures s[i] == w[i - a] {
      assert s[a..a + |w|][i - a] == s[i];
    }
    HasAtWithin(s, a, w, a + b, c);
    forall i | a <= i < a + b ensures Stripped(q, s[i]) {
      assert Stripped(q, w[i - a]);
    }
    forall i | a + b + |c| <= i < a + |w| ensures Stripped(q, s[i]) {
      assert Stripped(q, w[i - a]);
    }
  }
}

/** Hand-written matchers for the fixed regular expressions of the extraction
    engine, with the semantics of Python's `re` module: a match is tried at
    each start position from left to right and the first position that matches
    wins; a lazy `.*?` takes the shortest body after which the rest of the
    pattern matches; a greedy run takes the longest. `search`, `finditer`,
    `sub` and `split` are modelled for patterns whose matches are never empty. */
module Patterns {
  import opened Wrappers
  import opened Text

  /** The character classes that occur in the patterns. */
  datatype CharClass =
    | Word           // `\w`
    | WordOrSpace    // `[\w ]`
    | SenseRefChar   // `[\w ,–]`, the en dash U+2013 included
    | NotOpenBrace   // `[^{]`
    | NotCloseAngle  // `[^>]`
    | Blank          // a single space, as in ` +`

  predicate InClass(cls: CharClass, c: char)
  {
    match cls
    case Word => IsWordChar(c)
    case WordOrSpace => IsWordChar(c) || c == ' '
    case SenseRefChar => IsWordChar(c) || c == ' ' || c == ',' || c == '\U{2013}'
    case NotOpenBrace => c != '{'
    case NotCloseAngle => c != '>'
    case Blank => c == ' '
  }

  /** End of the longest run of `cls` characters starting at `i`: where a
      greedy repetition of `cls` stops. */
  function RunEnd(s: string, i: nat, cls: CharClass): (e: nat)
    requires i <= |s|
    ensures i <= e <= |s|
    ensures forall k | i <= k < e :: InClass(cls, s[k])
    ensures e < |s| ==> !InClass(cls, s[e])
    decreases |s| - i
  {
    if i < |s| && InClass(cls, s[i]) then RunEnd(s, i + 1, cls) else i
  }

  /** The largest index in `lo..hi` at which `lit` occurs. */
  function LastAt(s: string, lit: string, lo: nat, hi: int): (r: Option<nat>)
    ensures r.Some? ==> lo <= r.value <= hi && HasAt(s, r.value, lit)
    ensures r.Some? ==> forall j | r.value < j <= hi :: !HasAt(s, j, lit)
    ensures r.None? ==> forall j | lo <= j <= hi :: !HasAt(s, j, lit)
    decreases hi - lo
  {
    if hi < lo then None
    else if HasAt(s, hi, lit) then Some(hi)
    else LastAt(s, lit, lo, hi - 1)
  }

  /** What may follow a lazy body. */
  datatype Terminator =
    | Lit(lit: string)  // a literal text
    | AudioClose        // nothing or `spr=at`, then `}}`: the optional group is tried first
    | TemplateLine      // a newline, `{{`, at least one character other than `{`, then `}}`

  /** A terminator match: where it ends, and the `spr` group it captured. */
  datatype Close = Close(end: nat, spr: Option<string>)

  /** The terminator `t` matched at index `k`, if it matches there. */
  function CloseAt(t: Terminator, s: string, k: nat): (r: Option<Close>)
    requires k <= |s|
    requires t.Lit? ==> t.lit != []
    ensures r.Some? ==> k < r.value.end <= |s|
    ensures r.Some? && r.value.spr.Some? ==> t.AudioClose? && r.value.spr.value == "at"
    ensures t.Lit? ==> (r.Some? <==> HasAt(s, k, t.lit))
    ensures t.AudioClose? ==> (r.Some? <==> HasAt(s, k, "}}") || HasAt(s, k, "spr=at}}"))
    ensures t.AudioClose? && r.Some? ==> (r.value.spr.None? <==> HasAt(s, k, "}}"))
    ensures t.Lit? && r.Some? ==> r.value == Close(k + |t.lit|, None)
    ensures t.AudioClose? && r.Some? ==> r.value.end == k + if r.value.spr.None? then 2 else 8
  {
    match t
    case Lit(l) =>
      if HasAt(s, k, l) then Some(Close(k + |l|, None)) else None
    case AudioClose =>
      // The group ( |spr=at)? is entered first; its empty alternative is tried
      // before `spr=at`, and skipping the group leads to the same `}}` test.
      if HasAt(s, k, "}}") then Some(Close(k + 2, None))
      else if HasAt(s, k, "spr=at}}") then Some(Close(k + 8, Some("at")))
      else None
    case TemplateLine =>
      if HasAt(s, k, "\n{{") then
        // The greedy run of non-`{` characters backs off to the last `}}`
        // that still leaves at least one character in the run.
        var e := RunEnd(s, k + 3, NotOpenBrace);
        var j := LastAt(s, "}}", k + 4, e - 2);
        if j.Some? then Some(Close(j.value + 2, None)) else None
      else None
  }

  /** `}}` at `j` ends a template line that starts at `k`: `\n{{`, at least one
      character other than `{`, then `}}`. */
  predicate TemplateTail(s: string, k: nat, j: int)
  {
    && k + 4 <= j
    && HasAt(s, j, "}}")
    && forall i | k + 3 <= i < j :: s[i] != '{'
  }

  /** The template-line terminator is `\n{{` followed by a template tail, and
      the greedy run makes it end at the last such tail. */
  lemma TemplateLineClose(s: string, k: nat)
    requires k <= |s|
    ensures var r := CloseAt(TemplateLine, s, k);
      r.Some? ==> HasAt(s, k, "\n{{") && TemplateTail(s, k, r.value.end - 2) && r.value.spr.None?
    ensures var r := CloseAt(TemplateLine, s, k);
      HasAt(s, k, "\n{{") ==> forall j | TemplateTail(s, k, j) :: r.Some? && j + 2 <= r.value.end
  {
    if HasAt(s, k, "\n{{") {
      var e := RunEnd(s, k + 3, NotOpenBrace);
      forall j | TemplateTail(s, k, j) ensures j <= e - 2 {
        assert s[j..j + 2][0] == s[j] && s[j..j + 2][1] == s[j + 1];
      }
    }
  }

  /** `k` can be reached from `i` by a `.*?` body: without crossing a newline
      unless the pattern is compiled with DOTALL. */
  predicate Reachable(s: string, i: nat, k: nat, dotall: bool)
  {
    i <= k <= |s| && (dotall || forall j | i <= j < k :: s[j] != '\n')
  }

  /** Without DOTALL, a reachable stretch holds no line break. */
  lemma ReachableNoNewline(s: string, i: nat, k: nat)
    requires Reachable(s, i, k, false)
    ensures '\n' !in s[i..k]
  {
    forall j | 0 <= j < k - i ensures s[i..k][j] != '\n' {
      assert s[i..k][j] == s[i + j];
    }
  }

  /** Outcome of a lazy body: where the body ends and how the terminator matched. */
  datatype Lazy = Lazy(bodyEnd: nat, close: Close)

  /** A lazy `.*?` starting at `i` followed by `t`: the first reachable index at
      which `t` matches ends the body. */
  function LazyScan(s: string, i: nat, t: Terminator, dotall: bool): (r: Option<Lazy>)
    requires i <= |s|
    requires t.Lit? ==> t.lit != []
    ensures r.Some? ==> Reachable(s, i, r.value.bodyEnd, dotall)
    ensures r.Some? ==> CloseAt(t, s, r.value.bodyEnd) == Some(r.value.close)
    ensures r.Some? ==> forall k | i <= k < r.value.bodyEnd :: CloseAt(t, s, k).None?
    ensures r.None? ==> forall k | Reachable(s, i, k, dotall) :: CloseAt(t, s, k).None?
    decreases |s| - i
  {
    var c := CloseAt(t, s, i);
    if c.Some? then Some(Lazy(i, c.value))
    else if i < |s| && (dotall || s[i] != '\n') then
      var r := LazyScan(s, i + 1, t, dotall);
      assert forall k: nat | Reachable(s, i, k, dotall) && k > i :: Reachable(s, i + 1, k, dotall);
      r
    else None
  }

  /** One match: its extent, the text of the pattern's capture group that the
      extractors read (empty for patterns without one), and the `spr` group of
      the audio pattern. */
  datatype Match = Match(start: nat, end: nat, group: string, spr: Option<string>)

  /** The fixed patterns of the extraction engine. */
  datatype Pattern =
    | Keyed(key: string, ordinal: bool, value: CharClass)
      // `key`, then ` 1` if `ordinal` allows it, then `=`, then a greedy run of
      // `value` characters of length at least one: the captured value
    | Genus
      // `Genus`, optionally a space and a digit, `=`, and one of f, m, n: the captured letter
    | Wortart
      // `{{Wortart|` token `|Deutsch}}` with a word-character token, optionally
      // followed by a comma, spaces and a `{{f}}`, `{{m}}` or `{{n}}` template
    | Lautschrift
      // `{{Lautschrift|`, a lazy body without newline, `}}`: the captured body
    | Section(marker: string)
      // `marker`, a lazy body that may span lines, then a template line: the captured body
    | Audio
      // `{{Audio|`, a lazy file name without newline, an optional `spr=at`, `}}`
    | Ref
      // `<ref`, non-`>` characters, `>`, a lazy body without newline, `</ref>`
    | SenseRef
      // `:[`, at least one of word character, space, comma or en dash, `]`
    | Emphasis
      // two apostrophes, a lazy body without newline, two apostrophes: the captured body
    | LineBeforeColon
      // a newline that is followed by a colon (the colon is looked at, not consumed)

  /** A run of `cls` characters of length at least one right after the literal
      `prefix` at `p`; the run is the captured value. */
  function ValueAfter(s: string, p: nat, prefix: string, cls: CharClass): (r: Option<Match>)
    requires p <= |s|
    ensures r.Some? <==> HasAt(s, p, prefix) && p + |prefix| < |s| && InClass(cls, s[p + |prefix|])
    ensures r.Some? ==> r.value.start == p && r.value.end - |r.value.group| == p + |prefix|
    ensures r.Some? ==> IsMaximalRun(s, p + |prefix|, r.value.group, cls) && r.value.end <= |s|
  {
    if HasAt(s, p, prefix) then
      var e := RunEnd(s, p + |prefix|, cls);
      if e > p + |prefix| then
        RunIsMaximal(s, p + |prefix|, cls);
        Some(Match(p, e, s[p + |prefix|..e], None))
      else None
    else None
  }

  /** `v` is a non-empty run of `cls` characters at `i` that cannot be extended. */
  predicate IsMaximalRun(s: string, i: nat, v: string, cls: CharClass)
  {
    && v != []
    && HasAt(s, i, v)
    && (forall k | 0 <= k < |v| :: InClass(cls, v[k]))
    && (i + |v| < |s| ==> !InClass(cls, s[i + |v|]))
  }

  /** A non-empty greedy run is a maximal run. */
  lemma RunIsMaximal(s: string, i: nat, cls: CharClass)
    requires i <= |s| && i < RunEnd(s, i, cls)
    ensures IsMaximalRun(s, i, s[i..RunEnd(s, i, cls)], cls)
  {
    var e := RunEnd(s, i, cls);
    var v := s[i..e];
    forall k | 0 <= k < |v| ensures InClass(cls, v[k]) {
      assert v[k] == s[i + k];
    }
  }

  /** The keyed pattern at `p`: the ` 1` alternative is tried first, then the bare key. */
  function KeyedAt(s: string, p: nat, key: string, ordinal: bool, cls: CharClass): (r: Option<Match>)
    requires p <= |s|
    ensures r.Some? <==>
      || (ordinal && ValueAfter(s, p, key + " 1=", cls).Some?)
      || ValueAfter(s, p, key + "=", cls).Some?
    ensures r.Some? ==> r.value.start == p && p < r.value.end <= |s|
  {
    var numbered := if ordinal then ValueAfter(s, p, key + " 1=", cls) else None;
    if numbered.Some? then numbered else ValueAfter(s, p, key + "=", cls)
  }

  /** One of the three gender letters. */
  predicate IsGenderLetter(c: char)
  {
    c == 'f' || c == 'm' || c == 'n'
  }

  /** The gender pattern at `p`; the captured group is the letter. */
  function GenusAt(s: string, p: nat): (r: Option<Match>)
    requires p <= |s|
    ensures r.Some? ==> |r.value.group| == 1 && IsGenderLetter(r.value.group[0])
  {
    if HasAt(s, p, "Genus ") && p + 8 < |s| && IsDecimalDigit(s[p + 6]) && s[p + 7] == '='
      && IsGenderLetter(s[p + 8])
    then Some(Match(p, p + 9, [s[p + 8]], None))
    else if HasAt(s, p, "Genus=") && p + 6 < |s| && IsGenderLetter(s[p + 6])
    then Some(Match(p, p + 7, [s[p + 6]], None))
    else None
  }

  /** End of the optional `, +{{g}}` suffix of the part-of-speech pattern at `i`
      (`i` itself when the suffix is absent). */
  function GenderSuffixEnd(s: string, i: nat): (e: nat)
    requires i <= |s|
    ensures i <= e <= |s|
    ensures e != i ==> GenderSuffixAt(s, i, e - 5)
    ensures forall b | GenderSuffixAt(s, i, b) :: e == b + 5
  {
    if HasAt(s, i, ",") then
      GenderSuffixRun(s, i);
      var b := RunEnd(s, i + 1, Blank);
      if b > i + 1 && HasAt(s, b, "{{") && b + 2 < |s| && IsGenderLetter(s[b + 2])
        && HasAt(s, b + 3, "}}")
      then b + 5
      else i
    else i
  }

  /** The suffix `, +{{g}}` at `i` with its `{{` at `b`: a comma, at least one
      space, and a gender letter in double braces. */
  predicate GenderSuffixAt(s: string, i: nat, b: int)
  {
    && HasAt(s, i, ",")
    && i + 1 < b && b + 2 < |s|
    && (forall k | i + 1 <= k < b :: s[k] == ' ')
    && HasAt(s, b, "{{")
    && IsGenderLetter(s[b + 2])
    && HasAt(s, b + 3, "}}")
  }

  /** The run of spaces after the comma of a gender suffix ends at its `{{`. */
  lemma GenderSuffixRun(s: string, i: nat)
    requires i < |s|
    ensures forall b | GenderSuffixAt(s, i, b) :: RunEnd(s, i + 1, Blank) == b
  {
    forall b | GenderSuffixAt(s, i, b) ensures RunEnd(s, i + 1, Blank) == b {
      var e := RunEnd(s, i + 1, Blank);
      assert s[b..b + 2][0] == s[b] == '{';
    }
  }

  /** The part-of-speech pattern at `p`; the captured group is the token.
      Because `|` is not a word character, a shorter token can never be
      followed by `|`, so the longest run is the only candidate. */
  function WortartAt(s: string, p: nat): (r: Option<Match>)
    requires p <= |s|
    ensures r.Some? ==> IsMaximalRun(s, p + 10, r.value.group, Word)
    ensures r.Some? ==> HasAt(s, p, "{{Wortart|" + r.value.group + "|Deutsch}}")
  {
    if HasAt(s, p, "{{Wortart|") then
      var e := RunEnd(s, p + 10, Word);
      if e > p + 10 && HasAt(s, e, "|Deutsch}}") then
        var g := s[p + 10..e];
        RunIsMaximal(s, p + 10, Word);
        HasAtWrap(s, p, "{{Wortart|", g, "|Deutsch}}");
        Some(Match(p, GenderSuffixEnd(s, e + 10), g, None))
      else None
    else None
  }

  /** A literal opener at `p` followed by a lazy body and terminator `t`;
      the captured group is the body. */
  function LazyAt(s: string, p: nat, opener: string, t: Terminator, dotall: bool): (r: Option<Match>)
    requires p <= |s|
    requires t.Lit? ==> t.lit != []
    ensures r.Some? <==> HasAt(s, p, opener) && LazyScan(s, p + |opener|, t, dotall).Some?
    ensures r.Some? ==>
      var z := LazyScan(s, p + |opener|, t, dotall).value;
      && r.value.group == s[p + |opener|..z.bodyEnd]
      && r.value.end == z.close.end
      && r.value.spr == z.close.spr
  {
    if HasAt(s, p, opener) then
      match LazyScan(s, p + |opener|, t, dotall)
      case None => None
      case Some(z) => Some(Match(p, z.close.end, s[p + |opener|..z.bodyEnd], z.close.spr))
    else None
  }

  /** The citation pattern at `p`. The greedy run of non-`>` characters must
      stop at a `>`; a shorter run would be followed by a non-`>` character. */
  function RefAt(s: string, p: nat): (r: Option<Match>)
    requires p <= |s|
    ensures r.Some? ==> r.value.start == p && r.value.group == "" && r.value.spr.None?
    ensures r.Some? ==> HasAt(s, p, "<ref") && p + 5 <= r.value.end - 6 && HasAt(s, r.value.end - 6, "</ref>")
    ensures r.Some? ==> '>' in s[p + 4..r.value.end - 6] && r.value.end <= |s|
    ensures r.Some? ==> exists g, q :: RefSpan(s, p, g, q) && r.value.end == q + 6
    ensures forall g, q | RefSpan(s, p, g, q) :: r == Some(Match(p, q + 6, "", None))
  {
    if HasAt(s, p, "<ref") then
      var e := RunEnd(s, p + 4, NotCloseAngle);
      RefSpansAt(s, p);
      if e < |s| then
        match RefClose(s, e)
        case None => None
        case Some(q) =>
          assert RefOpener(s, p, e) && RefSpan(s, p, e, q);
          RefSpanShape(s, p, e, q);
          Some(Match(p, q + 6, "", None))
      else None
    else None
  }

  /** `<ref` at `p`, then non-`>` characters up to the `>` at `g`. */
  predicate RefOpener(s: string, p: nat, g: int)
  {
    && HasAt(s, p, "<ref")
    && p + 4 <= g < |s| && s[g] == '>'
    && forall k | p + 4 <= k < g :: s[k] != '>'
  }

  /** After the `>` at `g`, a body without newline closed at `q` by the first
      `</ref>`. */
  predicate RefTail(s: string, g: int, q: int)
  {
    && 0 <= g && g + 1 <= q && Reachable(s, g + 1, q, false)
    && HasAt(s, q, "</ref>")
    && forall j | g + 1 <= j < q :: !HasAt(s, j, "</ref>")
  }

  /** A citation at `p`: its opening tag ends with the `>` at `g`, and its body
      is closed at `q`. */
  predicate RefSpan(s: string, p: nat, g: int, q: int)
  {
    RefOpener(s, p, g) && RefTail(s, g, q)
  }

  /** A citation starts with `<ref`, has its `>` before the closing `</ref>`
      and fits in the text. */
  lemma RefSpanShape(s: string, p: nat, g: int, q: int)
    requires RefSpan(s, p, g, q)
    ensures HasAt(s, p, "<ref") && p + 5 <= q && HasAt(s, q, "</ref>")
    ensures '>' in s[p + 4..q] && q + 6 <= |s|
  {
    assert s[p + 4..q][g - p - 4] == s[g];
  }

  /** Every citation at `p` has its `>` where the non-`>` run stops and its
      end where `RefClose` finds it. */
  lemma RefSpansAt(s: string, p: nat)
    requires p <= |s|
    ensures forall g, q | RefSpan(s, p, g, q) ::
      g == RunEnd(s, p + 4, NotCloseAngle) && g < |s| && RefClose(s, g) == Some(q)
    ensures HasAt(s, p, "<ref") && RunEnd(s, p + 4, NotCloseAngle) < |s| ==>
      RefOpener(s, p, RunEnd(s, p + 4, NotCloseAngle))
  {
    RefOpenerAt(s, p);
  }

  /** The run of non-`>` characters after `<ref` stops at the opening tag's `>`. */
  lemma RefOpenerAt(s: string, p: nat)
    requires p <= |s|
    ensures forall g | RefOpener(s, p, g) :: RunEnd(s, p + 4, NotCloseAngle) == g
  {
  }

  /** Where the lazy citation body `.*?</ref>` after the `>` at `g` ends. */
  function RefClose(s: string, g: nat): (q: Option<nat>)
    requires g < |s|
    ensures q.Some? ==> RefTail(s, g, q.value)
    ensures forall k | RefTail(s, g, k) :: q == Some(k)
  {
    RefTailScan(s, g);
    match LazyScan(s, g + 1, Lit("</ref>"), false)
    case None => None
    case Some(z) =>
      RefScanTail(s, g, z);
      Some(z.bodyEnd)
  }

  /** Where the lazy scan stops, a citation body ends. */
  lemma RefScanTail(s: string, g: nat, z: Lazy)
    requires g < |s| && LazyScan(s, g + 1, Lit("</ref>"), false) == Some(z)
    ensures RefTail(s, g, z.bodyEnd)
  {
    forall j | g + 1 <= j < z.bodyEnd ensures !HasAt(s, j, "</ref>") {
      assert CloseAt(Lit("</ref>"), s, j).None?;
    }
  }

  /** Every citation body after `g` is where the lazy scan stops. */
  lemma RefTailScan(s: string, g: nat)
    requires g < |s|
    ensures forall q | RefTail(s, g, q) ::
      LazyScan(s, g + 1, Lit("</ref>"), false) == Some(Lazy(q, Close(q + 6, None)))
  {
    forall q | RefTail(s, g, q)
      ensures LazyScan(s, g + 1, Lit("</ref>"), false) == Some(Lazy(q, Close(q + 6, None)))
    {
      LazyLitUnique(s, g + 1, "</ref>", false, q);
    }
  }

  /** The sense-reference pattern at `p`. */
  function SenseRefAt(s: string, p: nat): (r: Option<Match>)
    requires p <= |s|
    ensures r.Some? ==> r.value.start == p && r.value.group == "" && r.value.spr.None?
    ensures r.Some? ==> SenseRefSpan(s, p, r.value.end - 1) && r.value.end <= |s|
    ensures forall q | SenseRefSpan(s, p, q) :: r == Some(Match(p, q + 1, "", None))
  {
    if HasAt(s, p, ":[") then
      var e := RunEnd(s, p + 2, SenseRefChar);
      if e > p + 2 && HasAt(s, e, "]") then Some(Match(p, e + 1, "", None)) else None
    else None
  }

  /** `:[`, at least one sense-list character, and `]` at `q`. */
  predicate SenseRefSpan(s: string, p: nat, q: int)
  {
    && HasAt(s, p, ":[")
    && p + 2 < q < |s| && s[q] == ']'
    && forall k | p + 2 <= k < q :: InClass(SenseRefChar, s[k])
  }

  /** Whether `pat` matches at `p`, and how. */
  function MatchAt(pat: Pattern, s: string, p: nat): (r: Option<Match>)
    requires p <= |s|
    ensures r.Some? ==> r.value.start == p && p < r.value.end <= |s|
  {
    match pat
    case Keyed(key, ordinal, cls) => KeyedAt(s, p, key, ordinal, cls)
    case Genus => GenusAt(s, p)
    case Wortart => WortartAt(s, p)
    case Lautschrift => LazyAt(s, p, "{{Lautschrift|", Lit("}}"), false)
    case Section(marker) => LazyAt(s, p, marker, TemplateLine, true)
    case Audio => LazyAt(s, p, "{{Audio|", AudioClose, false)
    case Ref => RefAt(s, p)
    case SenseRef => SenseRefAt(s, p)
    case Emphasis => LazyAt(s, p, "''", Lit("''"), false)
    case LineBeforeColon => if HasAt(s, p, "\n:") then Some(Match(p, p + 1, "", None)) else None
  }

  /** The first index from `from` on at which `t` holds a value, or `|t|`. */
  function FirstIndex(t: seq<Option<Match>>, from: nat): (i: nat)
    requires from <= |t|
    ensures from <= i <= |t|
    ensures i < |t| ==> t[i].Some?
    ensures forall q | from <= q < i :: t[q].None?
    decreases |t| - from
  {
    if from == |t| || t[from].Some? then from else FirstIndex(t, from + 1)
  }

  /** The outcome of `pat` at every position of `s`. */
  function MatchTable(pat: Pattern, s: string): (t: seq<Option<Match>>)
    ensures |t| == |s| + 1
    ensures forall p | 0 <= p <= |s| :: t[p] == MatchAt(pat, s, p)
  {
    seq(|s| + 1, p requires 0 <= p <= |s| => MatchAt(pat, s, p))
  }

  /** Python's `pattern.search(s, from)`: the match at the leftmost position. */
  function Search(pat: Pattern, s: string, from: nat): (r: Option<Match>)
    requires from <= |s|
    ensures r.Some? ==> from <= r.value.start <= |s| && MatchAt(pat, s, r.value.start) == r
    ensures r.Some? ==> forall q | from <= q < r.value.start :: MatchAt(pat, s, q).None?
    ensures r.None? ==> forall q | from <= q <= |s| :: MatchAt(pat, s, q).None?
  {
    var t := MatchTable(pat, s);
    var i := FirstIndex(t, from);
    if i < |t| then t[i] else None
  }

  /** Python's `list(pattern.finditer(s, from))`: successive non-overlapping
      matches, each search resuming where the previous match ended. */
  function FindIter(pat: Pattern, s: string, from: nat): (ms: seq<Match>)
    requires from <= |s|
    ensures ms == [] <==> Search(pat, s, from).None?
    ensures ms != [] ==> Search(pat, s, from) == Some(ms[0])
    ensures AreMatches(MatchTable(pat, s), from, ms)
    decreases |s| - from
  {
    match Search(pat, s, from)
    case None => []
    case Some(m) =>
      var rest := FindIter(pat, s, m.end);
      MatchesCons(MatchTable(pat, s), from, m, rest);
      [m] + rest
  }

  /** `finditer` misses nothing between its matches and nothing after them. */
  lemma {:induction false} FindIterResumes(pat: Pattern, s: string, from: nat)
    requires from <= |s|
    ensures Resumes(pat, s, FindIter(pat, s, from))
    decreases |s| - from
  {
    var ms := FindIter(pat, s, from);
    if ms != [] {
      var m := Search(pat, s, from).value;
      FindIterStep(pat, s, from, m);
      var rest := FindIter(pat, s, m.end);
      FindIterResumes(pat, s, m.end);
      assert ms[1..] == rest;
      assert rest == [] <==> Search(pat, s, m.end).None?;
      assert rest != [] ==> Search(pat, s, m.end) == Some(ms[1]);
    }
  }

  /** One step of `finditer`: the first match, then the matches after it. */
  lemma FindIterStep(pat: Pattern, s: string, from: nat, m: Match)
    requires from <= |s| && Search(pat, s, from) == Some(m)
    ensures m.end <= |s|
    ensures FindIter(pat, s, from) == [m] + FindIter(pat, s, m.end)
  {
  }

  /** Each of `ms` is what a search from the end of the one before it finds,
      and a search after the last finds nothing. */
  predicate Resumes(pat: Pattern, s: string, ms: seq<Match>)
    decreases |ms|
  {
    ms != [] ==>
      && ms[0].end <= |s|
      && Search(pat, s, ms[0].end) == (if |ms| == 1 then None else Some(ms[1]))
      && Resumes(pat, s, ms[1..])
  }

  /** `ms` are entries of the match table `t` from `from` on, in order and
      without overlap. */
  predicate AreMatches(t: seq<Option<Match>>, from: nat, ms: seq<Match>)
  {
    && (forall i | 0 <= i < |ms| :: from <= ms[i].start < ms[i].end < |t| && t[ms[i].start] == Some(ms[i]))
    && (forall i | 0 <= i < |ms| - 1 :: ms[i].end <= ms[i + 1].start)
  }

  /** A match followed by the matches after its end. */
  lemma MatchesCons(t: seq<Option<Match>>, from: nat, m: Match, rest: seq<Match>)
    requires from <= m.start < m.end < |t| && t[m.start] == Some(m)
    requires AreMatches(t, m.end, rest)
    ensures AreMatches(t, from, [m] + rest)
  {
    var ms := [m] + rest;
    assert forall i | 1 <= i < |ms| :: ms[i] == rest[i - 1];
  }

  /** The text `re.sub` puts in place of a match: `<b>…</b>` around the body
      for the emphasis pattern, nothing for the others. */
  function Replacement(pat: Pattern, m: Match): string
  {
    if pat.Emphasis? then "<b>" + m.group + "</b>" else ""
  }

  /** Python's `pattern.sub(replacement, s[from..])`. */
  function Sub(pat: Pattern, s: string, from: nat): (r: string)
    requires from <= |s|
    ensures Search(pat, s, from).None? ==> r == s[from..]
    ensures !pat.Emphasis? ==> |r| <= |s| - from
    ensures !pat.Emphasis? ==> forall c | c in r :: c in s[from..]
    decreases |s| - from
  {
    match Search(pat, s, from)
    case None => s[from..]
    case Some(m) =>
      var rest := Sub(pat, s, m.end);
      assert forall c | c in s[m.end..] :: c in s[from..];
      s[from..m.start] + Replacement(pat, m) + rest
  }

  /** `ms` lie in `s` from `from` on, one after another. */
  predicate Spans(s: string, from: nat, ms: seq<Match>)
    decreases |ms|
  {
    from <= |s| && (ms != [] ==> from <= ms[0].start <= ms[0].end <= |s| && Spans(s, ms[0].end, ms[1..]))
  }

  /** The text from `from` on with each of `ms` put back as its replacement. */
  function Rebuild(pat: Pattern, s: string, from: nat, ms: seq<Match>): string
    requires Spans(s, from, ms)
    decreases |ms|
  {
    if ms == [] then s[from..]
    else s[from..ms[0].start] + Replacement(pat, ms[0]) + Rebuild(pat, s, ms[0].end, ms[1..])
  }

  /** `sub` replaces exactly the matches `finditer` reports and keeps the text
      between them. */
  lemma {:induction false} SubRebuildsMatches(pat: Pattern, s: string, from: nat)
    requires from <= |s|
    ensures Spans(s, from, FindIter(pat, s, from))
    ensures Sub(pat, s, from) == Rebuild(pat, s, from, FindIter(pat, s, from))
    decreases |s| - from
  {
    var ms := FindIter(pat, s, from);
    if ms != [] {
      var m := ms[0];
      SubRebuildsMatches(pat, s, m.end);
      assert ms[1..] == FindIter(pat, s, m.end);
    }
  }

  /** One step of `sub`: the text before the first match, its replacement and
      the rest. */
  lemma SubStep(pat: Pattern, s: string, from: nat, m: Match)
    requires from <= |s| && Search(pat, s, from) == Some(m)
    ensures from <= m.start <= m.end <= |s|
    ensures Sub(pat, s, from) == s[from..m.start] + Replacement(pat, m) + Sub(pat, s, m.end)
  {
  }

  /** Python's `pattern.split(s[from..])` for a pattern without capture groups. */
  function Split(pat: Pattern, s: string, from: nat): (pieces: seq<string>)
    requires from <= |s|
    ensures pieces != []
    decreases |s| - from
  {
    match Search(pat, s, from)
    case None => [s[from..]]
    case Some(m) => [s[from..m.start]] + Split(pat, s, m.end)
  }

  /** The pieces joined back together with `sep` between neighbours. */
  function Join(pieces: seq<string>, sep: string): string
  {
    if |pieces| <= 1 then (if pieces == [] then "" else pieces[0])
    else pieces[0] + sep + Join(pieces[1..], sep)
  }

  /** A match at `p` with no match to its left is what `search` finds. */
  lemma SearchFindsLeftmost(pat: Pattern, s: string, p: nat)
    requires p <= |s| && MatchAt(pat, s, p).Some?
    requires forall q | 0 <= q < p :: MatchAt(pat, s, q).None?
    ensures Search(pat, s, 0) == MatchAt(pat, s, p)
  {
  }

  /** A lazy body ended by a literal: the body ends at the first reachable
      occurrence of the literal. */
  lemma LazyLitUnique(s: string, i: nat, lit: string, dotall: bool, k: nat)
    requires lit != [] && i <= |s|
    requires Reachable(s, i, k, dotall) && HasAt(s, k, lit)
    requires forall j | i <= j < k :: !HasAt(s, j, lit)
    ensures LazyScan(s, i, Lit(lit), dotall) == Some(Lazy(k, Close(k + |lit|, None)))
  {
    assert CloseAt(Lit(lit), s, k).Some?;
  }

  /** A lazy match is the opener, the scanned body and its terminator. */
  lemma LazyAtScan(s: string, p: nat, opener: string, t: Terminator, dotall: bool)
    requires p <= |s| && (t.Lit? ==> t.lit != [])
    requires HasAt(s, p, opener) && LazyScan(s, p + |opener|, t, dotall).Some?
    ensures var z := LazyScan(s, p + |opener|, t, dotall).value;
      LazyAt(s, p, opener, t, dotall) == Some(Match(p, z.close.end, s[p + |opener|..z.bodyEnd], z.close.spr))
  {
  }

  /** A lazy body ends at the first reachable index where its terminator matches. */
  lemma LazyScanAt(s: string, i: nat, t: Terminator, dotall: bool, k: nat)
    requires i <= |s| && (t.Lit? ==> t.lit != [])
    requires Reachable(s, i, k, dotall) && CloseAt(t, s, k).Some?
    requires forall j | i <= j < k :: CloseAt(t, s, j).None?
    ensures LazyScan(s, i, t, dotall) == Some(Lazy(k, CloseAt(t, s, k).value))
  {
  }

  // ---------------------------------------------------------------------------
  // Splitting before colon lines, and emphasis
  // ---------------------------------------------------------------------------

  /** The line-before-colon pattern matches exactly the newline of a `\n:` pair. */
  lemma LineBreakMatchAt(s: string, p: nat)
    requires p <= |s|
    ensures MatchAt(LineBeforeColon, s, p) == if HasAt(s, p, "\n:") then Some(Match(p, p + 1, "", None)) else None
  {
  }

  /** Splitting before colon lines only drops the newlines: joining the pieces
      with a newline gives the text back. */
  lemma {:induction false} SplitLinesJoin(s: string, from: nat)
    requires from <= |s|
    ensures Join(Split(LineBeforeColon, s, from), "\n") == s[from..]
    decreases |s| - from
  {
    match Search(LineBeforeColon, s, from)
    case None =>
    case Some(m) =>
      LineBreakMatchAt(s, m.start);
      var rest := Split(LineBeforeColon, s, m.end);
      SplitLinesJoin(s, m.end);
      var pieces := [s[from..m.start]] + rest;
      assert pieces[1..] == rest;
      assert s[m.start] == '\n';
      assert s[from..] == s[from..m.start] + "\n" + s[m.end..];
  }

  /** Every piece after the first starts with the colon that followed the
      newline it was split at. */
  lemma {:induction false} SplitLinesStartWithColon(s: string, from: nat)
    requires from <= |s|
    ensures forall i | 1 <= i < |Split(LineBeforeColon, s, from)| ::
      Split(LineBeforeColon, s, from)[i] != [] && Split(LineBeforeColon, s, from)[i][0] == ':'
    decreases |s| - from
  {
    match Search(LineBeforeColon, s, from)
    case None =>
    case Some(m) =>
      LineBreakMatchAt(s, m.start);
      assert s[m.start + 1] == ':';
      SplitLinesStartWithColon(s, m.end);
      var rest := Split(LineBeforeColon, s, m.end);
      LineBreakMatchAt(s, m.end);
      assert rest[0] != [] && rest[0][0] == ':' by {
        match Search(LineBeforeColon, s, m.end)
        case None =>
          assert rest[0] == s[m.end..];
        case Some(n) =>
          assert n.start != m.end;
          assert rest[0] == s[m.end..n.start];
      }
      var pieces := [s[from..m.start]] + rest;
      assert Split(LineBeforeColon, s, from) == pieces;
      forall i | 1 <= i < |pieces| ensures pieces[i] != [] && pieces[i][0] == ':' {
        assert pieces[i] == rest[i - 1];
      }
  }

  /** No piece contains a newline followed by a colon: each such pair is a
      split point. */
  lemma {:induction false} SplitLinesUnbroken(s: string, from: nat)
    requires from <= |s|
    ensures forall i | 0 <= i < |Split(LineBeforeColon, s, from)| ::
      !Contains(Split(LineBeforeColon, s, from)[i], "\n:")
    decreases |s| - from
  {
    var pieces := Split(LineBeforeColon, s, from);
    match Search(LineBeforeColon, s, from)
    case None =>
      NoBreakIn(s, from, |s|);
      assert pieces == [s[from..]];
      assert s[from..|s|] == s[from..];
    case Some(m) =>
      SplitLinesUnbroken(s, m.end);
      NoBreakIn(s, from, m.start);
      var rest := Split(LineBeforeColon, s, m.end);
      assert pieces == [s[from..m.start]] + rest;
      forall i | 0 <= i < |pieces| ensures !Contains(pieces[i], "\n:") {
        if i > 0 {
          assert pieces[i] == rest[i - 1];
        }
      }
  }

  /** A stretch without a match of the line-before-colon pattern contains no `\n:`. */
  lemma NoBreakIn(s: string, from: nat, to: nat)
    requires from <= to <= |s|
    requires forall q | from <= q < to :: MatchAt(LineBeforeColon, s, q).None?
    ensures !Contains(s[from..to], "\n:")
  {
    var t := s[from..to];
    assert HasAt(s, from, t);
    forall j | 0 <= j <= |t| - 2 ensures !HasAt(t, j, "\n:") {
      LineBreakMatchAt(s, from + j);
      HasAtWithin(s, from, t, from + j, "\n:");
    }
  }

  /** An emphasis match spans its body and two quote pairs. */
  lemma EmphasisMatchShape(s: string, p: nat)
    requires p <= |s| && MatchAt(Emphasis, s, p).Some?
    ensures MatchAt(Emphasis, s, p).value.end == p + |MatchAt(Emphasis, s, p).value.group| + 4
    ensures HasAt(s, p, "''" + MatchAt(Emphasis, s, p).value.group + "''")
    ensures '\n' !in MatchAt(Emphasis, s, p).value.group
  {
    var z := LazyScan(s, p + 2, Lit("''"), false).value;
    assert CloseAt(Lit("''"), s, z.bodyEnd) == Some(z.close);
    var g := MatchAt(Emphasis, s, p).value.group;
    assert g == s[p + 2..z.bodyEnd];
    ReachableNoNewline(s, p + 2, z.bodyEnd);
    HasAtWrap(s, p, "''", g, "''");
  }

  /** Bolding grows a text by at most seven quarters: each `''x''` of length
      |x| + 4 becomes `<b>x</b>` of length |x| + 7. */
  lemma {:induction false} EmphasisGrowth(s: string, from: nat)
    requires from <= |s|
    ensures 4 * |Sub(Emphasis, s, from)| <= 7 * (|s| - from)
    decreases |s| - from
  {
    match Search(Emphasis, s, from)
    case None =>
    case Some(m) =>
      EmphasisMatchShape(s, m.start);
      EmphasisGrowth(s, m.end);
  }

  /** Bolding keeps every character of the text and adds only those of the
      `<b>` and `</b>` tags. */
  lemma {:induction false} EmphasisChars(s: string, from: nat)
    requires from <= |s|
    ensures forall c | c in Sub(Emphasis, s, from) :: c in s[from..] || c in "<b>/"
    decreases |s| - from
  {
    match Search(Emphasis, s, from)
    case None =>
    case Some(m) =>
      EmphasisMatchShape(s, m.start);
      EmphasisChars(s, m.end);
      HasAtUnwrap(s, m.start, "''", m.group, "''");
      var g := m.group;
      assert forall c | c in g :: c in s[from..] by {
        HasAtChars(s[from..], m.start + 2 - from, g);
      }
      assert forall c | c in s[m.end..] :: c in s[from..];
      assert forall c | c in s[from..m.start] :: c in s[from..];
  }
}

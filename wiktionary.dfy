/** The extraction engine of `addon/wiktionary.py`: each extractor reads one
    fact out of the wikitext of a German Wiktionary page, or reports that it is
    absent. The network calls that fetch pages and resolve file URLs are not
    part of this module; the URL lookup is a parameter of `AudioUrlFromWikitext`. */
module Wiktionary {
  import opened Wrappers
  import opened Enums
  import opened Text
  import opened Patterns

  // ---------------------------------------------------------------------------
  // The module's regular expressions
  // ---------------------------------------------------------------------------

  const AudioRe: Pattern := Audio
  const AusspracheRe: Pattern := Section("{{Aussprache}}")
  const IpaRe: Pattern := Lautschrift
  const SpeechPartRe: Pattern := Wortart
  const GenderRe: Pattern := Genus
  const PluralRe: Pattern := Keyed("Nominativ Plural", true, Word)
  const GenitiveRe: Pattern := Keyed("Genitiv Singular", true, Word)
  const RefRe: Pattern := Ref
  const ExampleRe: Pattern := Section("{{Beispiele}}")
  const HelpVerbRe: Pattern := Keyed("Hilfsverb", false, Word)
  const PrateritumRe: Pattern := Keyed("Präteritum_ich", false, WordOrSpace)
  const Partizip2Re: Pattern := Keyed("Partizip II", false, WordOrSpace)

  /** The template that marks a noun without singular. */
  const KeinSingular: string := "{{kSg.}}"

  /** The named group of the first `finditer` match. */
  function FirstGroup(pat: Pattern, s: string): (r: Option<string>)
    ensures r.None? <==> Search(pat, s, 0).None?
    ensures r.Some? ==> r.value == Search(pat, s, 0).value.group
  {
    var ms := FindIter(pat, s, 0);
    if ms == [] then None else Some(ms[0].group)
  }

  // ---------------------------------------------------------------------------
  // Audio
  // ---------------------------------------------------------------------------

  /** A recording without region marker whose file name starts with `De-`. */
  predicate IsPreferredAudio(m: Match)
  {
    m.spr.None? && StartsWith(m.group, "De-")
  }

  /** The index of the last preferred recording, if there is one. */
  function LastPreferred(ms: seq<Match>): (r: Option<nat>)
    ensures r.Some? ==> r.value < |ms| && IsPreferredAudio(ms[r.value])
    ensures r.Some? ==> forall j | r.value < j < |ms| :: !IsPreferredAudio(ms[j])
    ensures r.None? ==> forall j | 0 <= j < |ms| :: !IsPreferredAudio(ms[j])
  {
    if ms == [] then None
    else if IsPreferredAudio(ms[|ms| - 1]) then Some(|ms| - 1)
    else LastPreferred(ms[..|ms| - 1])
  }

  /** The audio selection rule: the last preferred recording in document
      order; failing that the first recording; failing that nothing. */
  function BestAudio(ms: seq<Match>): (r: Option<string>)
    ensures r.None? <==> ms == []
    ensures forall i | 0 <= i < |ms| && IsPreferredAudio(ms[i]) ::
      (forall j | i < j < |ms| :: !IsPreferredAudio(ms[j])) ==> r == Some(ms[i].group)
    ensures ms != [] && (forall i | 0 <= i < |ms| :: !IsPreferredAudio(ms[i])) ==> r == Some(ms[0].group)
    ensures r.Some? ==> exists i | 0 <= i < |ms| :: ms[i].group == r.value
  {
    match LastPreferred(ms)
    case Some(i) => Some(ms[i].group)
    case None => if ms == [] then None else Some(ms[0].group)
  }

  /** `get_best_audio_match`: scans the candidates from the last to the first,
      skipping those with a region marker, and returns the first file name that
      starts with `De-`; otherwise the first candidate's file name. */
  method BestAudioMatch(ms: seq<Match>) returns (r: Option<string>)
    ensures r == BestAudio(ms)
  {
    var i := |ms|;
    while i > 0
      invariant 0 <= i <= |ms|
      invariant forall j | i <= j < |ms| :: !IsPreferredAudio(ms[j])
    {
      i := i - 1;
      var m := ms[i];
      if m.spr.Some? {
        continue;
      }
      if StartsWith(m.group, "De-") {
        return Some(m.group);
      }
    }
    if |ms| > 0 {
      return Some(ms[0].group);
    }
    return None;
  }

  /** Every `spr` group the audio pattern captures is `at`. */
  lemma AudioSprIsAt(t: string)
    ensures forall m | m in FindIter(AudioRe, t, 0) :: m.spr.Some? ==> m.spr.value == "at"
  {
    var ms := FindIter(AudioRe, t, 0);
    forall m | m in ms && m.spr.Some? ensures m.spr.value == "at" {
      var i :| 0 <= i < |ms| && ms[i] == m;
      assert MatchAt(AudioRe, t, m.start) == Some(m);
    }
  }

  /** The audio pattern's optional group is "nothing or `spr=at`": with
      `spr=at` the bar before it stays in the file name, and any other region
      is part of the file name. */
  lemma AudioGroupAlternation()
    ensures MatchAt(AudioRe, "{{Audio|X|spr=at}}", 0) == Some(Match(0, 18, "X|", Some("at")))
    ensures MatchAt(AudioRe, "{{Audio|X|spr=ch}}", 0) == Some(Match(0, 18, "X|spr=ch", None))
  {
    AudioRegionAt();
    AudioRegionOther();
  }

  lemma AudioRegionAt()
    ensures MatchAt(AudioRe, "{{Audio|X|spr=at}}", 0) == Some(Match(0, 18, "X|", Some("at")))
  {
    var a := "{{Audio|X|spr=at}}";
    AudioRegionAtScan();
    AudioRegionAtText();
    LazyAtScan(a, 0, "{{Audio|", AudioClose, false);
    AudioMatchAt(a, 0);
  }

  /** The opener and the body of `{{Audio|X|spr=at}}`. */
  lemma AudioRegionAtText()
    ensures HasAt("{{Audio|X|spr=at}}", 0, "{{Audio|")
    ensures "{{Audio|X|spr=at}}"[8..10] == "X|"
  {
  }

  /** In `{{Audio|X|spr=at}}` the body ends before `spr=at}}`. */
  lemma AudioRegionAtScan()
    ensures LazyScan("{{Audio|X|spr=at}}", 8, AudioClose, false) == Some(Lazy(10, Close(18, Some("at"))))
  {
    var a := "{{Audio|X|spr=at}}";
    forall k | 8 <= k < 10 ensures CloseAt(AudioClose, a, k).None? {
      assert a[k..k + 2][0] == a[k] != '}';
      assert !HasAt(a, k, "}}");
      assert a[k..k + 8][0] != 's';
      assert !HasAt(a, k, "spr=at}}");
    }
    assert a[8] != '\n' && a[9] != '\n';
    assert a[10..12][0] != '}';
    assert !HasAt(a, 10, "}}");
    assert a[10..18] == "spr=at}}";
    LazyScanAt(a, 8, AudioClose, false, 10);
  }

  lemma AudioRegionOther()
    ensures MatchAt(AudioRe, "{{Audio|X|spr=ch}}", 0) == Some(Match(0, 18, "X|spr=ch", None))
  {
    var b := "{{Audio|X|spr=ch}}";
    AudioRegionOtherScan();
    AudioRegionOtherText();
    LazyAtScan(b, 0, "{{Audio|", AudioClose, false);
    AudioMatchAt(b, 0);
  }

  /** The opener and the body of `{{Audio|X|spr=ch}}`. */
  lemma AudioRegionOtherText()
    ensures HasAt("{{Audio|X|spr=ch}}", 0, "{{Audio|")
    ensures "{{Audio|X|spr=ch}}"[8..16] == "X|spr=ch"
  {
  }

  /** In `{{Audio|X|spr=ch}}` the body ends at the first `}}`. */
  lemma AudioRegionOtherScan()
    ensures LazyScan("{{Audio|X|spr=ch}}", 8, AudioClose, false) == Some(Lazy(16, Close(18, None)))
  {
    var b := "{{Audio|X|spr=ch}}";
    forall k | 8 <= k < 16 ensures CloseAt(AudioClose, b, k).None? {
      assert b[k..k + 2][0] == b[k] != '}';
      assert !HasAt(b, k, "}}");
      if k <= 10 {
        assert b[k..k + 8][0] != 's' || b[k..k + 8][4] != 'a';
      }
      assert !HasAt(b, k, "spr=at}}");
    }
    assert forall j | 8 <= j < 16 :: b[j] != '\n';
    assert b[16] == '}' && b[17] == '}';
    assert HasAt(b, 16, "}}");
    LazyScanAt(b, 8, AudioClose, false, 16);
  }

  /** The part of `get_audio_url_from_wikitext` that chooses a file name: the
      first pronunciation section, its audio templates, the selection rule, and
      the rejection of an empty name. */
  function AudioFileFromWikitext(s: string): (r: Option<string>)
    ensures r.None? <==>
      || Search(AusspracheRe, s, 0).None?
      || FindIter(AudioRe, Search(AusspracheRe, s, 0).value.group, 0) == []
      || BestAudio(FindIter(AudioRe, Search(AusspracheRe, s, 0).value.group, 0)) == Some("")
    ensures r.Some? ==> r.value != [] && '\n' !in r.value
    ensures r.Some? ==> r == BestAudio(FindIter(AudioRe, Search(AusspracheRe, s, 0).value.group, 0))
  {
    match Search(AusspracheRe, s, 0)
    case None => None
    case Some(section) =>
      var ms := FindIter(AudioRe, section.group, 0);
      if ms == [] then None
      else
        var name := BestAudio(ms);
        AudioFileNoNewline(section.group, ms, name.value);
        if name.value == "" then None else Some(name.value)
  }

  /** The audio pattern matches at `p` exactly as `LazyAt` says. */
  lemma AudioMatchAt(t: string, p: nat)
    requires p <= |t|
    ensures MatchAt(AudioRe, t, p) == LazyAt(t, p, "{{Audio|", AudioClose, false)
  {
  }

  /** A lazy body without DOTALL never spans lines. */
  lemma LazyBodyNoNewline(s: string, p: nat, opener: string, t: Terminator)
    requires p <= |s| && (t.Lit? ==> t.lit != [])
    requires LazyAt(s, p, opener, t, false).Some?
    ensures '\n' !in LazyAt(s, p, opener, t, false).value.group
  {
    var o := p + |opener|;
    var z := LazyScan(s, o, t, false).value;
    ReachableNoNewline(s, o, z.bodyEnd);
  }

  /** A selected file name never spans lines. */
  lemma AudioFileNoNewline(t: string, ms: seq<Match>, name: string)
    requires ms == FindIter(AudioRe, t, 0) && BestAudio(ms) == Some(name)
    ensures '\n' !in name
  {
    var i :| 0 <= i < |ms| && ms[i].group == name;
    var m := ms[i];
    assert MatchAt(AudioRe, t, m.start) == Some(m);
    AudioMatchAt(t, m.start);
    LazyBodyNoNewline(t, m.start, "{{Audio|", AudioClose);
  }

  /** `get_audio_url_from_wikitext` with the file-URL lookup given as
      `fileUrl`: no URL without a file name, and an empty URL counts as none. */
  function AudioUrlFromWikitext(s: string, fileUrl: string -> Option<string>): (r: Option<string>)
    ensures r.Some? ==> AudioFileFromWikitext(s).Some? && r == fileUrl(AudioFileFromWikitext(s).value)
    ensures r.Some? ==> r.value != []
    ensures r.Some? <==>
      && AudioFileFromWikitext(s).Some?
      && fileUrl(AudioFileFromWikitext(s).value).Some?
      && fileUrl(AudioFileFromWikitext(s).value).value != ""
  {
    match AudioFileFromWikitext(s)
    case None => None
    case Some(name) =>
      match fileUrl(name)
      case None => None
      case Some(url) => if url == "" then None else Some(url)
  }

  // ---------------------------------------------------------------------------
  // IPA
  // ---------------------------------------------------------------------------

  /** A `{{Lautschrift|v}}` template at `p` whose closing `}}` is the first one
      after the opening bar, with no line break in `v`. */
  ghost predicate LautschriftHit(s: string, p: nat, v: string)
  {
    && HasAt(s, p, "{{Lautschrift|" + v + "}}")
    && '\n' !in v
    && forall k | 0 <= k < |v| :: !HasAt(v + "}}", k, "}}")
  }

  /** Each Lautschrift match is a hit with the captured body. */
  lemma LautschriftMatchIsHit(s: string, p: nat)
    requires p <= |s|
    ensures var m := LazyAt(s, p, "{{Lautschrift|", Lit("}}"), false);
      m.Some? ==> LautschriftHit(s, p, m.value.group)
  {
    if LazyAt(s, p, "{{Lautschrift|", Lit("}}"), false).Some? {
      LautschriftMatchText(s, p);
      LazyBodyNoNewline(s, p, "{{Lautschrift|", Lit("}}"));
      LautschriftMatchBody(s, p);
    }
  }

  /** A Lautschrift match spells out the template around its body. */
  lemma LautschriftMatchText(s: string, p: nat)
    requires p <= |s| && LazyAt(s, p, "{{Lautschrift|", Lit("}}"), false).Some?
    ensures HasAt(s, p, "{{Lautschrift|" + LazyAt(s, p, "{{Lautschrift|", Lit("}}"), false).value.group + "}}")
  {
    var o := p + 14;
    var z := LazyScan(s, o, Lit("}}"), false).value;
    var v := LazyAt(s, p, "{{Lautschrift|", Lit("}}"), false).value.group;
    assert v == s[o..z.bodyEnd];
    assert HasAt(s, o, v);
    HasAtAppend(s, p, "{{Lautschrift|", v);
    HasAtAppend(s, p, "{{Lautschrift|" + v, "}}");
  }

  /** The body of a Lautschrift match has no `}}` before its closing one. */
  lemma LautschriftMatchBody(s: string, p: nat)
    requires p <= |s| && LazyAt(s, p, "{{Lautschrift|", Lit("}}"), false).Some?
    ensures var v := LazyAt(s, p, "{{Lautschrift|", Lit("}}"), false).value.group;
      forall k | 0 <= k < |v| :: !HasAt(v + "}}", k, "}}")
  {
    var o := p + 14;
    var z := LazyScan(s, o, Lit("}}"), false).value;
    var v := LazyAt(s, p, "{{Lautschrift|", Lit("}}"), false).value.group;
    var w := v + "}}";
    assert v == s[o..z.bodyEnd];
    assert HasAt(s, z.bodyEnd, "}}");
    assert HasAt(s, o, v);
    HasAtAppend(s, o, v, "}}");
    forall k | 0 <= k < |v| ensures !HasAt(w, k, "}}") {
      assert CloseAt(Lit("}}"), s, o + k).None?;
      HasAtWithin(s, o, w, o + k, "}}");
    }
  }

  /** Each hit is the Lautschrift match at its position. */
  lemma LautschriftHitIsMatch(s: string, p: nat, v: string)
    requires p <= |s| && LautschriftHit(s, p, v)
    ensures LazyAt(s, p, "{{Lautschrift|", Lit("}}"), false) == Some(Match(p, p + 14 + |v| + 2, v, None))
  {
    var o := p + 14;
    LautschriftHitParts(s, p, v);
    LautschriftHitScan(s, o, v);
    LazyLitUnique(s, o, "}}", false, o + |v|);
  }

  /** A hit spells out the opener, then the body and its closing `}}`. */
  lemma LautschriftHitParts(s: string, p: nat, v: string)
    requires HasAt(s, p, "{{Lautschrift|" + v + "}}")
    ensures HasAt(s, p, "{{Lautschrift|") && HasAt(s, p + 14, v + "}}")
    ensures HasAt(s, p + 14, v) && HasAt(s, p + 14 + |v|, "}}")
  {
    HasAtAppend(s, p, "{{Lautschrift|" + v, "}}");
    HasAtAppend(s, p, "{{Lautschrift|", v);
    HasAtAppend(s, p + 14, v, "}}");
  }

  /** Between the opener and the closing `}}` of a hit the lazy body can
      neither stop nor meet a line break. */
  lemma LautschriftHitScan(s: string, o: nat, v: string)
    requires HasAt(s, o, v + "}}")
    requires '\n' !in v && forall k | 0 <= k < |v| :: !HasAt(v + "}}", k, "}}")
    ensures forall j | o <= j < o + |v| :: !HasAt(s, j, "}}")
    ensures forall j | o <= j < o + |v| :: s[j] != '\n'
  {
    var w := v + "}}";
    forall j | o <= j < o + |v| ensures !HasAt(s, j, "}}") {
      HasAtWithin(s, o, w, j, "}}");
    }
    forall j | o <= j < o + |v| ensures s[j] != '\n' {
      assert s[o..o + |w|][j - o] == w[j - o] == v[j - o];
    }
  }

  /** A hit at `p` means the Lautschrift pattern matches there. */
  lemma IpaHitMatches(s: string, p: nat, v: string)
    requires p <= |s|
    ensures LautschriftHit(s, p, v) ==> MatchAt(IpaRe, s, p).Some?
  {
    if LautschriftHit(s, p, v) {
      LautschriftHitIsMatch(s, p, v);
      IpaMatchAt(s, p);
    }
  }

  /** `get_ipa_from_wikitext`: the body of the first Lautschrift template,
      verbatim; it may be empty, never spans lines and never contains `}}`. */
  function IpaFromWikitext(s: string): (r: Option<string>)
    ensures r.None? <==> forall p, v | 0 <= p <= |s| :: !LautschriftHit(s, p, v)
    ensures r.Some? ==> exists p | 0 <= p <= |s| ::
      && LautschriftHit(s, p, r.value)
      && forall q, v | 0 <= q < p :: !LautschriftHit(s, q, v)
    ensures r.Some? ==> '\n' !in r.value && !Contains(r.value, "}}")
  {
    IpaAbsent(s);
    IpaFirst(s);
    FirstGroup(IpaRe, s)
  }

  /** The Lautschrift pattern matches at `p` exactly as `LazyAt` says. */
  lemma IpaMatchAt(s: string, p: nat)
    requires p <= |s|
    ensures MatchAt(IpaRe, s, p) == LazyAt(s, p, "{{Lautschrift|", Lit("}}"), false)
  {
  }

  lemma IpaAbsent(s: string)
    ensures FirstGroup(IpaRe, s).None? <==> forall p, v | 0 <= p <= |s| :: !LautschriftHit(s, p, v)
  {
    if Search(IpaRe, s, 0).None? {
      forall p, v | 0 <= p <= |s| ensures !LautschriftHit(s, p, v) {
        IpaHitMatches(s, p, v);
      }
    } else {
      var m := Search(IpaRe, s, 0).value;
      IpaMatchAt(s, m.start);
      LautschriftMatchIsHit(s, m.start);
    }
  }

  lemma IpaFirst(s: string)
    ensures FirstGroup(IpaRe, s).Some? ==> exists p | 0 <= p <= |s| ::
      LautschriftHit(s, p, FirstGroup(IpaRe, s).value) && forall q, u | 0 <= q < p :: !LautschriftHit(s, q, u)
    ensures FirstGroup(IpaRe, s).Some? ==> '\n' !in FirstGroup(IpaRe, s).value && !Contains(FirstGroup(IpaRe, s).value, "}}")
  {
    if Search(IpaRe, s, 0).Some? {
      var m := Search(IpaRe, s, 0).value;
      IpaMatchAt(s, m.start);
      LautschriftMatchIsHit(s, m.start);
      IpaNoHitBefore(s, m.start);
      HitBodyClean(m.group);
    }
  }

  lemma IpaNoHitBefore(s: string, p: nat)
    requires p <= |s|
    requires forall q | 0 <= q < p :: MatchAt(IpaRe, s, q).None?
    ensures forall q, u | 0 <= q < p :: !LautschriftHit(s, q, u)
  {
    forall q, u | 0 <= q < p ensures !LautschriftHit(s, q, u) {
      IpaHitMatches(s, q, u);
    }
  }

  /** A body with no `}}` before its closing `}}` contains no `}}`. */
  lemma HitBodyClean(v: string)
    requires forall k | 0 <= k < |v| :: !HasAt(v + "}}", k, "}}")
    ensures !Contains(v, "}}")
  {
    var w := v + "}}";
    assert w[0..|v|] == v;
    forall k | 0 <= k <= |v| - 2 ensures !HasAt(v, k, "}}") {
      HasAtWithin(w, 0, v, k, "}}");
    }
  }

  // ---------------------------------------------------------------------------
  // Part of speech
  // ---------------------------------------------------------------------------

  /** The tokens the part-of-speech table recognises. */
  predicate IsRecognisedToken(token: string)
  {
    token == "Substantiv" || token == "Verb" || token == "Adjektiv"
    || token == "Lokaladverb" || token == "Personalpronomen"
  }

  /** The part-of-speech table; a noun becomes `PLURAL` when the page has no
      singular. */
  function SpeachPartOfToken(token: string, noSingular: bool): (r: Option<SpeachPart>)
    ensures r.None? <==> !IsRecognisedToken(token)
    ensures r != Some(NUMBER) && r != Some(JUNKTION)
    ensures token == "Substantiv" ==> r == Some(if noSingular then PLURAL else NOUN)
    ensures r == Some(NOUN) || r == Some(PLURAL) ==> token == "Substantiv"
  {
    if token == "Substantiv" then
      if noSingular then Some(PLURAL) else Some(NOUN)
    else if token == "Verb" then Some(VERB)
    else if token == "Adjektiv" then Some(ADJECTIVE)
    else if token == "Lokaladverb" then Some(ADVERB)
    else if token == "Personalpronomen" then Some(PRONOUN)
    else None
  }

  /** A `{{Wortart|t|Deutsch}}` template at `p` with a word-character token `t`. */
  ghost predicate WortartHit(s: string, p: nat, t: string)
  {
    && t != []
    && (forall k | 0 <= k < |t| :: IsWordChar(t[k]))
    && HasAt(s, p, "{{Wortart|" + t + "|Deutsch}}")
  }

  /** The first such template in the text. */
  ghost predicate FirstWortartHit(s: string, p: nat, t: string)
  {
    WortartHit(s, p, t) && forall q, u | 0 <= q < p :: !WortartHit(s, q, u)
  }

  /** The part-of-speech pattern matches at `p` exactly as `WortartAt` says. */
  lemma WortartMatchAt(s: string, p: nat)
    requires p <= |s|
    ensures MatchAt(SpeechPartRe, s, p) == WortartAt(s, p)
  {
  }

  /** Each part-of-speech match is a template with the captured token. */
  lemma WortartAtIsHit(s: string, p: nat)
    requires p <= |s| && WortartAt(s, p).Some?
    ensures WortartHit(s, p, WortartAt(s, p).value.group)
  {
    var t := WortartAt(s, p).value.group;
    assert IsMaximalRun(s, p + 10, t, Word);
  }

  /** Each template is matched at its position, with its token: the token
      cannot be shortened, since the bar after it is not a word character. */
  lemma WortartHitIsAt(s: string, p: nat, t: string)
    requires p <= |s| && WortartHit(s, p, t)
    ensures WortartAt(s, p).Some? && WortartAt(s, p).value.group == t
  {
    HasAtUnwrap(s, p, "{{Wortart|", t, "|Deutsch}}");
    var e := RunEnd(s, p + 10, Word);
    forall k | p + 10 <= k < p + 10 + |t| ensures IsWordChar(s[k]) {
      assert s[p + 10..p + 10 + |t|][k - p - 10] == s[k];
    }
    assert s[p + 10 + |t|..p + 20 + |t|][0] == s[p + 10 + |t|] == '|';
    assert e == p + 10 + |t|;
    assert s[p + 10..e] == t;
  }

  /** A template at `p` means the part-of-speech pattern matches there. */
  lemma WortartHitMatches(s: string, p: nat, t: string)
    requires p <= |s|
    ensures WortartHit(s, p, t) ==> MatchAt(SpeechPartRe, s, p).Some?
  {
    if WortartHit(s, p, t) {
      WortartHitIsAt(s, p, t);
      WortartMatchAt(s, p);
    }
  }

  lemma WortartAbsent(s: string)
    ensures Search(SpeechPartRe, s, 0).None? <==> forall p, t | 0 <= p <= |s| :: !WortartHit(s, p, t)
  {
    if Search(SpeechPartRe, s, 0).None? {
      forall p, t | 0 <= p <= |s| ensures !WortartHit(s, p, t) {
        WortartHitMatches(s, p, t);
      }
    } else {
      var m := Search(SpeechPartRe, s, 0).value;
      WortartMatchAt(s, m.start);
      WortartAtIsHit(s, m.start);
    }
  }

  lemma WortartFirst(s: string)
    requires Search(SpeechPartRe, s, 0).Some?
    ensures FirstWortartHit(s, Search(SpeechPartRe, s, 0).value.start, Search(SpeechPartRe, s, 0).value.group)
  {
    var m := Search(SpeechPartRe, s, 0).value;
    WortartMatchAt(s, m.start);
    WortartAtIsHit(s, m.start);
    forall q, u | 0 <= q < m.start ensures !WortartHit(s, q, u) {
      WortartHitMatches(s, q, u);
    }
  }

  /** There is at most one first template. */
  lemma FirstWortartUnique(s: string, p: nat, t: string, q: nat, u: string)
    requires p <= |s| && q <= |s|
    requires FirstWortartHit(s, p, t) && FirstWortartHit(s, q, u)
    ensures p == q && t == u
  {
    assert !(p < q) && !(q < p);
    WortartHitIsAt(s, p, t);
    WortartHitIsAt(s, q, u);
  }

  /** The first part-of-speech token, characterised by the templates alone. */
  lemma FirstToken(s: string)
    ensures FirstGroup(SpeechPartRe, s).None? <==> forall p, t | 0 <= p <= |s| :: !WortartHit(s, p, t)
    ensures FirstGroup(SpeechPartRe, s).Some? ==>
      exists p | 0 <= p <= |s| :: FirstWortartHit(s, p, FirstGroup(SpeechPartRe, s).value)
    ensures forall p, t | 0 <= p <= |s| && FirstWortartHit(s, p, t) :: FirstGroup(SpeechPartRe, s) == Some(t)
  {
    WortartAbsent(s);
    if Search(SpeechPartRe, s, 0).Some? {
      var m := Search(SpeechPartRe, s, 0).value;
      WortartFirst(s);
      forall p, t | 0 <= p <= |s| && FirstWortartHit(s, p, t) ensures FirstGroup(SpeechPartRe, s) == Some(t) {
        FirstWortartUnique(s, p, t, m.start, m.group);
      }
    }
  }

  /** `get_speach_part_from_wikitext`: only the first part-of-speech template
      decides, through the table; absent when there is none. */
  function SpeachPartFromWikitext(s: string): (r: Option<SpeachPart>)
    ensures (forall p, t | 0 <= p <= |s| :: !WortartHit(s, p, t)) ==> r.None?
    ensures forall p, t | 0 <= p <= |s| && FirstWortartHit(s, p, t) ::
      r == SpeachPartOfToken(t, Contains(s, KeinSingular))
    ensures r.Some? ==> exists p, t | 0 <= p <= |s| :: FirstWortartHit(s, p, t) && IsRecognisedToken(t)
    ensures r != Some(NUMBER) && r != Some(JUNKTION)
  {
    FirstToken(s);
    match FirstGroup(SpeechPartRe, s)
    case None => None
    case Some(t) => SpeachPartOfToken(t, Contains(s, KeinSingular))
  }

  /** The part-of-speech template for German with token `t`. */
  function WortartTemplate(t: string): string
  {
    "{{Wortart|" + t + "|Deutsch}}"
  }

  /** Only the first template decides: an unrecognised first token gives no
      part of speech even when a later template names a verb. */
  lemma FirstTemplateDecides()
    ensures SpeachPartFromWikitext(WortartTemplate("Foo") + WortartTemplate("Verb")).None?
  {
    var a := WortartTemplate("Foo");
    var s := a + WortartTemplate("Verb");
    assert s[0..|a|] == a;
    var t := "Foo";
    assert forall k | 0 <= k < |t| :: IsWordChar(t[k]) by {
      assert t[0] == 'F' && t[1] == 'o' && t[2] == 'o';
    }
    assert WortartHit(s, 0, t);
    assert FirstWortartHit(s, 0, t);
  }

  // ---------------------------------------------------------------------------
  // Gender
  // ---------------------------------------------------------------------------

  /** The gender template's letter, as the chain of comparisons maps it. */
  function GenderFromLetter(g: string): (r: Option<Gender>)
    ensures r == Some(MALE) <==> g == "m"
    ensures r == Some(FEMALE) <==> g == "f"
    ensures r == Some(NEUTRAL) <==> g == "n"
    ensures r.None? <==> g != "m" && g != "f" && g != "n"
  {
    if g == "m" then Some(MALE)
    else if g == "f" then Some(FEMALE)
    else if g == "n" then Some(NEUTRAL)
    else None
  }

  /** A `Genus=x` or `Genus d=x` key at `p`, with `d` a digit and `x` a gender letter. */
  ghost predicate GenusHit(s: string, p: nat, x: char)
  {
    && IsGenderLetter(x)
    && (|| HasAt(s, p, "Genus=" + [x])
        || exists d | IsDecimalDigit(d) :: HasAt(s, p, "Genus " + [d] + "=" + [x]))
  }

  /** The first gender key in the text. */
  ghost predicate FirstGenusHit(s: string, p: nat, x: char)
  {
    GenusHit(s, p, x) && forall q, y | 0 <= q < p :: !GenusHit(s, q, y)
  }

  /** The gender pattern matches at `p` exactly as `GenusAt` says. */
  lemma GenusMatchAt(s: string, p: nat)
    requires p <= |s|
    ensures MatchAt(GenderRe, s, p) == GenusAt(s, p)
  {
  }

  /** Each gender match is a gender key with the captured letter. */
  lemma GenusAtIsHit(s: string, p: nat)
    requires p <= |s| && GenusAt(s, p).Some?
    ensures GenusAt(s, p).value.group == [GenusAt(s, p).value.group[0]]
    ensures GenusHit(s, p, GenusAt(s, p).value.group[0])
  {
    var x := GenusAt(s, p).value.group[0];
    if HasAt(s, p, "Genus ") && p + 8 < |s| && IsDecimalDigit(s[p + 6]) && s[p + 7] == '=' && IsGenderLetter(s[p + 8]) {
      var d := s[p + 6];
      HasAtAppend(s, p, "Genus " + [d] + "=", [x]);
      HasAtAppend(s, p, "Genus " + [d], "=");
      HasAtAppend(s, p, "Genus ", [d]);
      assert HasAt(s, p, "Genus " + [d] + "=" + [x]);
    } else {
      HasAtAppend(s, p, "Genus=", [x]);
    }
  }

  /** Each gender key is matched at its position, with its letter. */
  lemma GenusHitIsAt(s: string, p: nat, x: char)
    requires p <= |s| && GenusHit(s, p, x)
    ensures GenusAt(s, p).Some? && GenusAt(s, p).value.group == [x]
  {
    if HasAt(s, p, "Genus=" + [x]) {
      HasAtAppend(s, p, "Genus=", [x]);
      assert s[p + 5] == '=';
      assert s[p..p + 6] != "Genus ";
    } else {
      var d :| IsDecimalDigit(d) && HasAt(s, p, "Genus " + [d] + "=" + [x]);
      HasAtAppend(s, p, "Genus " + [d] + "=", [x]);
      HasAtAppend(s, p, "Genus " + [d], "=");
      HasAtAppend(s, p, "Genus ", [d]);
    }
  }

  /** A gender key at `p` means the gender pattern matches there. */
  lemma GenusHitMatches(s: string, p: nat, x: char)
    requires p <= |s|
    ensures GenusHit(s, p, x) ==> MatchAt(GenderRe, s, p).Some?
  {
    if GenusHit(s, p, x) {
      GenusHitIsAt(s, p, x);
      GenusMatchAt(s, p);
    }
  }

  lemma GenusAbsent(s: string)
    ensures Search(GenderRe, s, 0).None? <==> forall p, x | 0 <= p <= |s| :: !GenusHit(s, p, x)
  {
    if Search(GenderRe, s, 0).None? {
      forall p, x | 0 <= p <= |s| ensures !GenusHit(s, p, x) {
        GenusHitMatches(s, p, x);
      }
    } else {
      var m := Search(GenderRe, s, 0).value;
      GenusMatchAt(s, m.start);
      GenusAtIsHit(s, m.start);
    }
  }

  lemma GenusFirst(s: string)
    requires Search(GenderRe, s, 0).Some?
    ensures var m := Search(GenderRe, s, 0).value;
      m.group == [m.group[0]] && FirstGenusHit(s, m.start, m.group[0])
  {
    var m := Search(GenderRe, s, 0).value;
    GenusMatchAt(s, m.start);
    GenusAtIsHit(s, m.start);
    forall q, y | 0 <= q < m.start ensures !GenusHit(s, q, y) {
      GenusHitMatches(s, q, y);
    }
  }

  /** There is at most one first gender key. */
  lemma FirstGenusUnique(s: string, p: nat, x: char, q: nat, y: char)
    requires p <= |s| && q <= |s|
    requires FirstGenusHit(s, p, x) && FirstGenusHit(s, q, y)
    ensures p == q && x == y
  {
    assert !(p < q) && !(q < p);
    GenusHitIsAt(s, p, x);
    GenusHitIsAt(s, q, y);
  }

  /** The gender a gender letter stands for. */
  function LetterGender(x: char): Gender
    requires IsGenderLetter(x)
  {
    if x == 'm' then MALE else if x == 'f' then FEMALE else NEUTRAL
  }

  /** The captured letter of the first gender key, characterised by the keys alone. */
  lemma FirstGenusLetter(s: string)
    ensures FirstGroup(GenderRe, s).None? <==> forall p, x | 0 <= p <= |s| :: !GenusHit(s, p, x)
    ensures FirstGroup(GenderRe, s).Some? ==> exists p, x | 0 <= p <= |s| ::
      FirstGenusHit(s, p, x) && FirstGroup(GenderRe, s) == Some([x])
  {
    GenusAbsent(s);
    if Search(GenderRe, s, 0).Some? {
      GenusFirst(s);
    }
  }

  /** `get_gender_from_wikitext`: the first gender key decides (m, f, n give
      MALE, FEMALE, NEUTRAL), so the result is never `None`; with no key the
      unguarded `matches[0]` raises `IndexError`. */
  function GenderFromWikitext(s: string): (r: Outcome<Option<Gender>>)
    ensures r.IndexError? <==> forall p, x | 0 <= p <= |s| :: !GenusHit(s, p, x)
    ensures r.Returned? ==> exists p, x | 0 <= p <= |s| ::
      FirstGenusHit(s, p, x) && r.value == Some(LetterGender(x))
  {
    FirstGenusLetter(s);
    match FirstGroup(GenderRe, s)
    case None => IndexError
    case Some(g) => Returned(GenderFromLetter(g))
  }

  // ---------------------------------------------------------------------------
  // Keyed word forms
  // ---------------------------------------------------------------------------

  /** A `key=` (or, with `ordinal`, `key 1=`) key at `p` followed by at least
      one character of class `cls`. */
  predicate KeyHit(s: string, p: nat, key: string, ordinal: bool, cls: CharClass)
  {
    || (HasAt(s, p, key + "=") && p + |key| + 1 < |s| && InClass(cls, s[p + |key| + 1]))
    || (ordinal && HasAt(s, p, key + " 1=") && p + |key| + 3 < |s| && InClass(cls, s[p + |key| + 3]))
  }

  /** `v` is the whole run of `cls` characters right after the key at `p`. */
  ghost predicate KeyValueAt(s: string, p: nat, key: string, ordinal: bool, cls: CharClass, v: string)
  {
    || (HasAt(s, p, key + "=") && IsMaximalRun(s, p + |key| + 1, v, cls))
    || (ordinal && HasAt(s, p, key + " 1=") && IsMaximalRun(s, p + |key| + 3, v, cls))
  }

  /** What a keyed extractor promises: `None` exactly when the key never
      occurs with a value, otherwise the value of the leftmost occurrence,
      which is a non-empty maximal run of `cls` characters. */
  ghost predicate KeyedResult(s: string, key: string, ordinal: bool, cls: CharClass, r: Option<string>)
  {
    && (r.None? <==> forall p | 0 <= p <= |s| :: !KeyHit(s, p, key, ordinal, cls))
    && (r.Some? ==> exists p | 0 <= p <= |s| ::
          && KeyHit(s, p, key, ordinal, cls)
          && (forall q | 0 <= q < p :: !KeyHit(s, q, key, ordinal, cls))
          && KeyValueAt(s, p, key, ordinal, cls, r.value))
  }

  /** The keyed pattern matches at `p` exactly as `KeyedAt` says. */
  lemma KeyedMatchAt(s: string, p: nat, key: string, ordinal: bool, cls: CharClass)
    requires p <= |s|
    ensures MatchAt(Keyed(key, ordinal, cls), s, p) == KeyedAt(s, p, key, ordinal, cls)
  {
  }

  /** Each keyed match is a key hit, and its group is the value after the key;
      conversely each key hit is matched at its position. */
  lemma KeyedAtIff(s: string, p: nat, key: string, ordinal: bool, cls: CharClass)
    requires p <= |s|
    ensures KeyedAt(s, p, key, ordinal, cls).Some? <==> KeyHit(s, p, key, ordinal, cls)
    ensures KeyedAt(s, p, key, ordinal, cls).Some? ==>
      KeyValueAt(s, p, key, ordinal, cls, KeyedAt(s, p, key, ordinal, cls).value.group)
  {
  }

  lemma KeyedAbsent(s: string, key: string, ordinal: bool, cls: CharClass)
    ensures Search(Keyed(key, ordinal, cls), s, 0).None? <==> forall p | 0 <= p <= |s| :: !KeyHit(s, p, key, ordinal, cls)
  {
    if Search(Keyed(key, ordinal, cls), s, 0).None? {
      forall p | 0 <= p <= |s| ensures !KeyHit(s, p, key, ordinal, cls) {
        KeyedAtIff(s, p, key, ordinal, cls);
        KeyedMatchAt(s, p, key, ordinal, cls);
      }
    } else {
      var m := Search(Keyed(key, ordinal, cls), s, 0).value;
      KeyedMatchAt(s, m.start, key, ordinal, cls);
      KeyedAtIff(s, m.start, key, ordinal, cls);
    }
  }

  lemma KeyedFirst(s: string, key: string, ordinal: bool, cls: CharClass)
    requires Search(Keyed(key, ordinal, cls), s, 0).Some?
    ensures var m := Search(Keyed(key, ordinal, cls), s, 0).value;
      && KeyHit(s, m.start, key, ordinal, cls)
      && (forall q | 0 <= q < m.start :: !KeyHit(s, q, key, ordinal, cls))
      && KeyValueAt(s, m.start, key, ordinal, cls, m.group)
  {
    var m := Search(Keyed(key, ordinal, cls), s, 0).value;
    KeyedMatchAt(s, m.start, key, ordinal, cls);
    KeyedAtIff(s, m.start, key, ordinal, cls);
    forall q | 0 <= q < m.start ensures !KeyHit(s, q, key, ordinal, cls) {
      KeyedAtIff(s, q, key, ordinal, cls);
      KeyedMatchAt(s, q, key, ordinal, cls);
    }
  }

  /** The first keyed group is what `KeyedResult` describes. */
  lemma KeyedExtract(s: string, key: string, ordinal: bool, cls: CharClass)
    ensures KeyedResult(s, key, ordinal, cls, FirstGroup(Keyed(key, ordinal, cls), s))
  {
    KeyedAbsent(s, key, ordinal, cls);
    if Search(Keyed(key, ordinal, cls), s, 0).Some? {
      KeyedFirst(s, key, ordinal, cls);
    }
  }

  /** `get_plural_from_wikitext`. */
  function PluralFromWikitext(s: string): (r: Option<string>)
    ensures KeyedResult(s, "Nominativ Plural", true, Word, r)
  {
    KeyedExtract(s, "Nominativ Plural", true, Word);
    FirstGroup(PluralRe, s)
  }

  /** `get_genitive_from_wikitext`. */
  function GenitiveFromWikitext(s: string): (r: Option<string>)
    ensures KeyedResult(s, "Genitiv Singular", true, Word, r)
  {
    KeyedExtract(s, "Genitiv Singular", true, Word);
    FirstGroup(GenitiveRe, s)
  }

  /** `get_help_verb_from_wikitext`. */
  function HelpVerbFromWikitext(s: string): (r: Option<string>)
    ensures KeyedResult(s, "Hilfsverb", false, Word, r)
  {
    KeyedExtract(s, "Hilfsverb", false, Word);
    FirstGroup(HelpVerbRe, s)
  }

  /** `get_prateritum_from_wikitext`: the value may contain spaces. */
  function PrateritumFromWikitext(s: string): (r: Option<string>)
    ensures KeyedResult(s, "Präteritum_ich", false, WordOrSpace, r)
  {
    KeyedExtract(s, "Präteritum_ich", false, WordOrSpace);
    FirstGroup(PrateritumRe, s)
  }

  /** `get_partizip2_from_wikitext`: the value may contain spaces. */
  function Partizip2FromWikitext(s: string): (r: Option<string>)
    ensures KeyedResult(s, "Partizip II", false, WordOrSpace, r)
  {
    KeyedExtract(s, "Partizip II", false, WordOrSpace);
    FirstGroup(Partizip2Re, s)
  }

  /** The only numbered key the plural and genitive patterns accept is ` 1`:
      a `Nominativ Plural 2=` key is no hit. */
  lemma OnlyFirstOrdinal(s: string, p: nat)
    requires HasAt(s, p, "Nominativ Plural 2=")
    ensures !KeyHit(s, p, "Nominativ Plural", true, Word)
  {
    assert s[p + 16] == ' ' && s[p + 17] == '2';
    assert s[p..p + 17] != "Nominativ Plural=";
    assert s[p..p + 19] != "Nominativ Plural 1=";
  }

  // ---------------------------------------------------------------------------
  // Examples
  // ---------------------------------------------------------------------------

  /** The characters stripped from both ends of an example after whitespace. */
  const QuoteChars: string := "„“=\n»«"

  /** The longest example kept, measured before bolding. */
  const MaxExampleLength: nat := 150

  /** How many examples are returned at most. */
  const MaxExamples: nat := 5

  /** The body of the first examples section, split before every line that
      starts with a colon; no lines when the page has no such section. */
  function ExampleLines(s: string): (lines: seq<string>)
    ensures Search(ExampleRe, s, 0).None? ==> lines == []
    ensures Search(ExampleRe, s, 0).Some? ==>
      Join(lines, "\n") == Search(ExampleRe, s, 0).value.group
    ensures forall i | 1 <= i < |lines| :: lines[i] != [] && lines[i][0] == ':'
    ensures forall i | 0 <= i < |lines| :: !Contains(lines[i], "\n:")
  {
    match Search(ExampleRe, s, 0)
    case None => []
    case Some(m) =>
      SplitLinesJoin(m.group, 0);
      SplitLinesStartWithColon(m.group, 0);
      SplitLinesUnbroken(m.group, 0);
      assert m.group[0..] == m.group;
      Split(LineBeforeColon, m.group, 0)
  }

  /** One example line with sense references, line breaks and citations
      removed; it uses only characters of the line and never spans lines. */
  function Decite(line: string): (t: string)
    ensures '\n' !in t
    ensures forall ch | ch in t :: ch in line
    ensures |t| <= |line|
    ensures !Contains(line, ":[") && !Contains(line, "<ref") && '\n' !in line ==> t == line
  {
    var unsensed := Sub(SenseRef, line, 0);
    var joined := RemoveNewlines(unsensed);
    assert line[0..] == line && joined[0..] == joined;
    NoCitation(line);
    NoCitation(joined);
    Sub(Ref, joined, 0)
  }

  /** Without `:[` no sense reference matches, and without `<ref` no citation. */
  lemma NoCitation(s: string)
    ensures !Contains(s, ":[") ==> Search(SenseRef, s, 0).None?
    ensures !Contains(s, "<ref") ==> Search(Ref, s, 0).None?
  {
    if Search(SenseRef, s, 0).Some? {
      var m := Search(SenseRef, s, 0).value;
      assert HasAt(s, m.start, ":[");
    }
    if Search(Ref, s, 0).Some? {
      var m := Search(Ref, s, 0).value;
      assert HasAt(s, m.start, "<ref");
    }
  }

  /** `Decite` drops exactly the sense references `finditer` reports, then
      the newlines, then exactly the citations `finditer` reports in what is
      left, and keeps all text between them. */
  lemma DeciteRebuilds(line: string)
    ensures var us := FindIter(SenseRef, line, 0);
      && Spans(line, 0, us)
      && var joined := RemoveNewlines(Rebuild(SenseRef, line, 0, us));
      var cs := FindIter(Ref, joined, 0);
      && Spans(joined, 0, cs)
      && Decite(line) == Rebuild(Ref, joined, 0, cs)
  {
    SubRebuildsMatches(SenseRef, line, 0);
    SubRebuildsMatches(Ref, RemoveNewlines(Sub(SenseRef, line, 0)), 0);
  }

  /** One example line cleaned up: `Decite`, then whitespace and the quote
      characters stripped from both ends. */
  function CleanExample(line: string): (c: string)
    ensures '\n' !in c
    ensures forall ch | ch in c :: ch in line
    ensures c != [] ==> c[0] !in QuoteChars && c[|c| - 1] !in QuoteChars
  {
    var d := Decite(line);
    StripQuotesFacts(d);
    StripTwice(d, Whitespace, Chars(QuoteChars))
  }

  /** Stripping whitespace and then the quote characters keeps only
      characters of the text and leaves no quote character at either end. */
  lemma StripQuotesFacts(d: string)
    ensures var c := StripTwice(d, Whitespace, Chars(QuoteChars));
      && (forall ch | ch in c :: ch in d)
      && (c != [] ==> c[0] !in QuoteChars && c[|c| - 1] !in QuoteChars)
  {
    HasAtChars(d, StripTwiceStart(d, Whitespace, Chars(QuoteChars)), StripTwice(d, Whitespace, Chars(QuoteChars)));
    StripTwiceEnds(d, Whitespace, Chars(QuoteChars));
  }

  /** The cleaned example is one contiguous part of the decited line, and
      everything cut off on either side is whitespace or a quote character. */
  lemma CleanExampleSlice(line: string)
    ensures var d := Decite(line); var c := CleanExample(line);
      var o := StripTwiceStart(d, Whitespace, Chars(QuoteChars));
      && HasAt(d, o, c)
      && (forall i | 0 <= i < o :: IsSpace(d[i]) || d[i] in QuoteChars)
      && (forall i | o + |c| <= i < |d| :: IsSpace(d[i]) || d[i] in QuoteChars)
  {
    StripTwiceTrimmed(Decite(line), Whitespace, Chars(QuoteChars));
  }

  /** The filter of `get_examples_from_wikitext`: non-empty, not the
      `::Anneliese` placeholder, and at most 150 characters. */
  predicate KeepExample(c: string)
  {
    c != [] && !StartsWith(c, "::Anneliese") && |c| <= MaxExampleLength
  }

  /** The filter on edge cases: the empty text and the placeholder go, a text
      of exactly 150 characters stays and one of 151 goes. */
  lemma KeepExampleCases()
    ensures !KeepExample("")
    ensures !KeepExample("::Anneliese und Wolf")
    ensures KeepExample(seq(150, _ => 'a'))
    ensures !KeepExample(seq(151, _ => 'a'))
  {
    var a := seq(150, _ => 'a');
    assert a[0..11][0] == 'a';
  }

  /** The kept example with every `''…''` span turned into `<b>…</b>`. */
  function Emphasize(c: string): (r: string)
    ensures 4 * |r| <= 7 * |c|
    ensures !Contains(c, "''") ==> r == c
    ensures c != [] ==> r != []
    ensures forall ch | ch in r :: ch in c || ch in "<b>/"
  {
    EmphasisGrowth(c, 0);
    NoEmphasis(c);
    EmphasisChars(c, 0);
    assert c[0..] == c;
    if Search(Emphasis, c, 0).Some? then
      var m := Search(Emphasis, c, 0).value;
      SubStep(Emphasis, c, 0, m);
      ConcatParts(Sub(Emphasis, c, 0), c[0..m.start], Replacement(Emphasis, m), Sub(Emphasis, c, m.end));
      Sub(Emphasis, c, 0)
    else
      Sub(Emphasis, c, 0)
  }

  /** The first `''…''` span, found left to right, is the first one bolded:
      the text before it is kept, the span becomes `<b>…</b>`, and bolding
      goes on after the span; overall the spans bolded are exactly those
      `finditer` reports. */
  lemma EmphasizeMatches(c: string)
    ensures Search(Emphasis, c, 0).Some? ==>
      var m := Search(Emphasis, c, 0).value; var r := Emphasize(c);
      && HasAt(c, m.start, "''" + m.group + "''")
      && HasAt(r, m.start, "<b>" + m.group + "</b>")
      && r[..m.start] == c[..m.start]
      && r[m.start + |m.group| + 7..] == Sub(Emphasis, c, m.end)
    ensures Spans(c, 0, FindIter(Emphasis, c, 0)) && Emphasize(c) == Rebuild(Emphasis, c, 0, FindIter(Emphasis, c, 0))
  {
    SubRebuildsMatches(Emphasis, c, 0);
    if Search(Emphasis, c, 0).Some? {
      var m := Search(Emphasis, c, 0).value;
      SubStep(Emphasis, c, 0, m);
      ConcatParts(Sub(Emphasis, c, 0), c[0..m.start], Replacement(Emphasis, m), Sub(Emphasis, c, m.end));
      EmphasisMatchShape(c, m.start);
    }
  }

  /** Without a pair of single quotes there is nothing to bold. */
  lemma NoEmphasis(c: string)
    ensures !Contains(c, "''") ==> Search(Emphasis, c, 0).None?
  {
    if Search(Emphasis, c, 0).Some? {
      var m := Search(Emphasis, c, 0).value;
      assert HasAt(c, m.start, "''");
    }
  }

  /** What one line contributes: its cleaned text, bolded, when the filter keeps it. */
  function ExampleOf(line: string): (r: Option<string>)
    ensures r.None? <==>
      var c := CleanExample(line);
      c == [] || StartsWith(c, "::Anneliese") || |c| > MaxExampleLength
    ensures r.Some? ==> r.value != [] && '\n' !in r.value && 4 * |r.value| <= 7 * MaxExampleLength
    ensures r.Some? ==> forall ch | ch in r.value :: ch in line || ch in "<b>/"
  {
    var c := CleanExample(line);
    if KeepExample(c) then
      BoldedChars(line, c, Emphasize(c));
      Some(Emphasize(c))
    else None
  }

  /** Bolding a text made of characters of `line` yields only characters of
      `line` or of the tags, and no newline when the text has none. */
  lemma BoldedChars(line: string, c: string, r: string)
    requires forall ch | ch in c :: ch in line
    requires forall ch | ch in r :: ch in c || ch in "<b>/"
    ensures forall ch | ch in r :: ch in line || ch in "<b>/"
    ensures '\n' !in c ==> '\n' !in r
  {
    assert '\n' !in "<b>/";
  }

  /** `f` applied to every line. */
  function MapLines(f: string -> Option<string>, lines: seq<string>): (opts: seq<Option<string>>)
    ensures |opts| == |lines|
    ensures forall i | 0 <= i < |lines| :: opts[i] == f(lines[i])
  {
    if lines == [] then []
    else MapLines(f, lines[..|lines| - 1]) + [f(lines[|lines| - 1])]
  }

  /** The present values of `opts`, in order. */
  function Present(opts: seq<Option<string>>): (out: seq<string>)
    ensures |out| <= |opts|
  {
    if opts == [] then []
    else
      var init := Present(opts[..|opts| - 1]);
      match opts[|opts| - 1]
      case None => init
      case Some(e) => init + [e]
  }

  /** `idx` lists where the present values of `opts` sit: a strictly
      increasing list of indices that names every present entry and only
      those, in order. */
  ghost predicate IndexesPresent(opts: seq<Option<string>>, idx: seq<nat>)
  {
    && |idx| == |Present(opts)|
    && (forall k | 0 <= k < |idx| :: idx[k] < |opts| && opts[idx[k]] == Some(Present(opts)[k]))
    && (forall k, l | 0 <= k < l < |idx| :: idx[k] < idx[l])
    && (forall i | 0 <= i < |opts| && opts[i].Some? :: i in idx)
  }

  /** The positions of the present values of `opts`. */
  ghost function PresentIndices(opts: seq<Option<string>>): (idx: seq<nat>)
    ensures IndexesPresent(opts, idx)
  {
    if opts == [] then []
    else
      var prev := PresentIndices(opts[..|opts| - 1]);
      IndexesSnoc(opts, prev);
      if opts[|opts| - 1].Some? then prev + [|opts| - 1] else prev
  }

  /** A longer list's indices extend its prefix's by the last index, when the
      last entry is present. */
  lemma IndexesSnoc(opts: seq<Option<string>>, prev: seq<nat>)
    requires opts != [] && IndexesPresent(opts[..|opts| - 1], prev)
    ensures IndexesPresent(opts, if opts[|opts| - 1].Some? then prev + [|opts| - 1] else prev)
  {
    var init := opts[..|opts| - 1];
    assert init + [opts[|opts| - 1]] == opts;
    match opts[|opts| - 1]
    case Some(e) => IndexesSnocSome(init, e, prev);
    case None => IndexesSnocNone(init, prev);
  }

  /** Appending an absent entry keeps the indices. */
  lemma IndexesSnocNone(opts: seq<Option<string>>, idx: seq<nat>)
    requires IndexesPresent(opts, idx)
    ensures IndexesPresent(opts + [None], idx)
  {
    var all := opts + [None];
    PresentStep(opts, None);
    assert Present(all) == Present(opts);
    forall k | 0 <= k < |idx| ensures idx[k] < |all| && all[idx[k]] == Some(Present(all)[k]) {
      assert all[idx[k]] == opts[idx[k]];
    }
    forall i | 0 <= i < |all| && all[i].Some? ensures i in idx {
      assert i < |opts| && all[i] == opts[i];
    }
  }

  /** Appending a present entry: the old indices keep their values and the new
      index is the last and largest. */
  lemma IndexesSnocSome(opts: seq<Option<string>>, e: string, idx: seq<nat>)
    requires IndexesPresent(opts, idx)
    ensures IndexesPresent(opts + [Some(e)], idx + [|opts|])
  {
    var all := opts + [Some(e)];
    var r := idx + [|opts|];
    PresentStep(opts, Some(e));
    var out := Present(all);
    assert out == Present(opts) + [e];
    forall k | 0 <= k < |r| ensures r[k] < |all| && all[r[k]] == Some(out[k]) {
      if k < |idx| {
        assert r[k] == idx[k] && all[idx[k]] == opts[idx[k]] && out[k] == Present(opts)[k];
      }
    }
    forall i | 0 <= i < |all| && all[i].Some? ensures i in r {
      if i < |opts| {
        assert all[i] == opts[i] && i in idx;
      } else {
        assert r[|idx|] == i;
      }
    }
  }

  /** The cleaned, kept and bolded examples of `lines`, in order. */
  function KeptExamples(lines: seq<string>): seq<string>
  {
    Present(MapLines(ExampleOf, lines))
  }

  /** Mapping one more line appends its image. */
  lemma MapLinesStep(f: string -> Option<string>, lines: seq<string>, i: nat)
    requires i < |lines|
    ensures MapLines(f, lines[..i + 1]) == MapLines(f, lines[..i]) + [f(lines[i])]
  {
    assert lines[..i + 1][..i] == lines[..i];
  }

  /** One more entry adds its value, if present, at the end. */
  lemma PresentStep(opts: seq<Option<string>>, o: Option<string>)
    ensures Present(opts + [o]) == Present(opts) + (if o.Some? then [o.value] else [])
  {
    assert (opts + [o])[..|opts|] == opts;
  }

  /** Python's `xs[:n]`: the first `n` items, or all of them when there are fewer. */
  function Truncate(xs: seq<string>, n: nat): (r: seq<string>)
    ensures |r| <= n && |r| <= |xs| && r == xs[..|r|]
    ensures |r| == n || r == xs
  {
    if |xs| <= n then
      assert xs[..|xs|] == xs;
      xs
    else xs[..n]
  }

  /** What `get_examples_from_wikitext` returns: the kept examples, at most five. */
  function Examples(s: string): (r: seq<string>)
    ensures |r| <= MaxExamples
    ensures Search(ExampleRe, s, 0).None? ==> r == []
  {
    Truncate(KeptExamples(ExampleLines(s)), MaxExamples)
  }

  /** `get_examples_from_wikitext`: splits the section into lines, cleans each
      line, skips the lines the filter rejects, bolds the rest and returns the
      first five. */
  method ExamplesFromWikitext(s: string) returns (out: seq<string>)
    ensures out == Examples(s)
  {
    var section := Search(ExampleRe, s, 0);
    if section.None? {
      return [];
    }
    var lines := Split(LineBeforeColon, section.value.group, 0);
    assert lines == ExampleLines(s);
    var output: seq<string> := [];
    for i := 0 to |lines|
      invariant output == KeptExamples(lines[..i])
    {
      var example := CleanExample(lines[i]);
      MapLinesStep(ExampleOf, lines, i);
      PresentStep(MapLines(ExampleOf, lines[..i]), ExampleOf(lines[i]));
      if !KeepExample(example) {
        continue;
      }
      output := output + [Emphasize(example)];
    }
    assert lines[..|lines|] == lines;
    out := if |output| <= MaxExamples then output else output[..MaxExamples];
    assert out == Truncate(output, MaxExamples);
  }

  /** Every returned example is a kept line, cleaned and bolded: it comes from
      a line of the section, was at most 150 characters long before bolding,
      never spans lines and is not the `::Anneliese` placeholder. */
  lemma ExamplesAreKeptLines(s: string)
    ensures forall e | e in Examples(s) :: exists i | 0 <= i < |ExampleLines(s)| ::
      && KeepExample(CleanExample(ExampleLines(s)[i]))
      && e == Emphasize(CleanExample(ExampleLines(s)[i]))
  {
    var lines := ExampleLines(s);
    var opts := MapLines(ExampleOf, lines);
    var idx := PresentIndices(opts);
    var r := Examples(s);
    forall e | e in r ensures exists i | 0 <= i < |lines| ::
      KeepExample(CleanExample(lines[i])) && e == Emphasize(CleanExample(lines[i]))
    {
      var k :| 0 <= k < |r| && r[k] == e;
      assert e == Present(opts)[k];
      var i := idx[k];
      assert opts[i] == ExampleOf(lines[i]) == Some(e);
    }
  }

  /** `idx` names, in increasing order, the lines of the section each returned
      example comes from; a kept line it leaves out comes after the fifth. */
  ghost predicate ListsExamples(s: string, idx: seq<nat>)
  {
    var lines := ExampleLines(s);
    var r := Examples(s);
    && |idx| == |r|
    && (forall k, l | 0 <= k < l < |idx| :: idx[k] < idx[l])
    && (forall k | 0 <= k < |idx| :: idx[k] < |lines| && ExampleOf(lines[idx[k]]) == Some(r[k]))
    && (forall i | 0 <= i < |lines| && ExampleOf(lines[i]).Some? ::
          i in idx || (|idx| == MaxExamples && idx[MaxExamples - 1] < i))
  }

  /** The first `n` present values sit, in order, at the first `n` of their
      indices; any present entry not among those comes after the `n`-th. */
  lemma TruncatedIndexes(opts: seq<Option<string>>, full: seq<nat>, n: nat)
    requires IndexesPresent(opts, full) && n > 0
    ensures var r := Truncate(Present(opts), n);
      var idx := full[..|r|];
      && |idx| == |r|
      && (forall k, l | 0 <= k < l < |idx| :: idx[k] < idx[l])
      && (forall k | 0 <= k < |idx| :: idx[k] < |opts| && opts[idx[k]] == Some(r[k]))
      && (forall i | 0 <= i < |opts| && opts[i].Some? :: i in idx || (|idx| == n && idx[n - 1] < i))
  {
    var kept := Present(opts);
    var r := Truncate(kept, n);
    var idx := full[..|r|];
    forall k | 0 <= k < |idx| ensures idx[k] < |opts| && opts[idx[k]] == Some(r[k]) {
      assert idx[k] == full[k] && r[k] == kept[k];
    }
    forall i | 0 <= i < |opts| && opts[i].Some? ensures i in idx || (|idx| == n && idx[n - 1] < i) {
      var m :| 0 <= m < |full| && full[m] == i;
      if m < |idx| {
        assert idx[m] == i;
      } else {
        assert |r| != |kept|;
        assert idx[n - 1] == full[n - 1];
      }
    }
  }

  /** The examples are the first five kept lines, in document order. */
  lemma ExamplesInOrder(s: string)
    ensures exists idx :: ListsExamples(s, idx)
  {
    var lines := ExampleLines(s);
    var opts := MapLines(ExampleOf, lines);
    var full := PresentIndices(opts);
    TruncatedIndexes(opts, full, MaxExamples);
    var r := Examples(s);
    var idx := full[..|r|];
    forall k | 0 <= k < |idx| ensures idx[k] < |lines| && ExampleOf(lines[idx[k]]) == Some(r[k]) {
      assert opts[idx[k]] == ExampleOf(lines[idx[k]]);
    }
    forall i | 0 <= i < |lines| && ExampleOf(lines[i]).Some?
      ensures i in idx || (|idx| == MaxExamples && idx[MaxExamples - 1] < i)
    {
      assert opts[i] == ExampleOf(lines[i]);
    }
    assert ListsExamples(s, idx);
  }

  /** A returned example is at most 262 characters long: 150 before bolding,
      and bolding adds three characters for every four it replaces. */
  lemma ExampleLengthBound(s: string)
    ensures forall e | e in Examples(s) :: 4 * |e| <= 7 * MaxExampleLength
  {
    ExamplesAreKeptLines(s);
  }

  /** The citation pattern matches only where `<ref` starts. */
  lemma RefNeedsOpening(s: string, p: nat)
    requires p <= |s|
    ensures MatchAt(Ref, s, p).Some? ==> HasAt(s, p, "<ref")
  {
  }

  /** Without `<ref` from `from` on, there is no citation to remove. */
  lemma NoRefFrom(s: string, from: nat)
    requires from <= |s|
    requires forall q | from <= q <= |s| :: !HasAt(s, q, "<ref")
    ensures Sub(Ref, s, from) == s[from..]
  {
    if Search(Ref, s, from).Some? {
      RefNeedsOpening(s, Search(Ref, s, from).value.start);
    }
  }

  /** A citation whose opening tag is split by another citation. */
  const NestedRef: string := "<re" + "<ref>a</ref>" + "f>b</ref>"

  /** The citation pattern is applied once, so a citation nested inside the
      letters of another leaves a citation behind. */
  lemma NestedRefSurvives()
    ensures Sub(Ref, NestedRef, 0) == "<ref>b</ref>"
  {
    NestedRefInner();
    NestedRefTail();
    assert NestedRef[0..3] == "<re";
  }

  /** The inner citation is the first match. */
  lemma NestedRefInner()
    ensures Search(Ref, NestedRef, 0) == Some(Match(3, 15, "", None))
  {
    NestedRefNoEarlier();
    NestedRefAt3();
    SearchFindsLeftmost(Ref, NestedRef, 3);
  }

  /** The outer, broken opening does not match. */
  lemma NestedRefNoEarlier()
    ensures forall q | 0 <= q < 3 :: MatchAt(Ref, NestedRef, q).None?
  {
    var s := NestedRef;
    forall q | 0 <= q < 3 ensures MatchAt(Ref, s, q).None? {
      assert s[q..q + 4][0] != '<' || s[q..q + 4][3] != 'f';
      assert !HasAt(s, q, "<ref");
      RefNeedsOpening(s, q);
    }
  }

  /** The inner citation `<ref>a</ref>` matches at index 3. */
  lemma NestedRefAt3()
    ensures MatchAt(Ref, NestedRef, 3) == Some(Match(3, 15, "", None))
  {
    var s := NestedRef;
    assert s[3] == '<' && s[4] == 'r' && s[5] == 'e' && s[6] == 'f' && s[7] == '>';
    assert HasAt(s, 3, "<ref");
    assert RunEnd(s, 7, NotCloseAngle) == 7;
    assert s[8] == 'a';
    assert s[9..15] == "</ref>";
    LazyLitUnique(s, 8, "</ref>", false, 9);
  }

  /** After the inner citation no `<ref` is left to match. */
  lemma NestedRefTail()
    ensures Sub(Ref, NestedRef, 15) == "f>b</ref>"
  {
    var s := NestedRef;
    var tail := s[15..];
    assert tail == "f>b</ref>";
    forall q | 15 <= q <= |s| ensures !HasAt(s, q, "<ref") {
      if q + 4 <= |s| {
        assert s[q..q + 4][0] == tail[q - 15] && s[q..q + 4][1] == tail[q - 14];
        assert tail[q - 15] != '<' || tail[q - 14] != 'r';
      }
    }
    NoRefFrom(s, 15);
  }
}

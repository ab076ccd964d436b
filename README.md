# Wikitext extraction of deutsch_anki_addon, in Dafny

The add-on builds Anki cards for German words from their German Wiktionary
page. Its extraction engine, `addon/wiktionary.py`, reads the raw wikitext
of a page with fixed regular expressions and pulls out:

- the pronunciation recording;
- the IPA transcription;
- the part of speech and the gender;
- the plural and the genitive;
- the auxiliary verb, the preterite and the past participle;
- up to five usage examples.

`addon/card_html.py` turns genders and parts of speech into the coloured HTML
fragments shown on a card.

The model has six modules:

| module | file | contents |
|---|---|---|
| `Wrappers` | `wrappers.dfy` | `Option`, and `Outcome`, which records a Python `IndexError` |
| `Enums` | `enums.dfy` | the `SpeachPart` and `Gender` enumerations |
| `Text` | `text.dfy` | `\w`, `\d` and `str.isspace()`; occurrence of a literal; `str.strip` |
| `Patterns` | `patterns.dfy` | each regular expression as a hand-written matcher (below) |
| `Wiktionary` | `wiktionary.dfy` | one function per extractor, plus two methods for the code's loops |
| `CardHtml` | `card_html.dfy` | the card fragments |

**Patterns.** Each matcher follows Python `re` backtracking for its fixed
pattern: lazy `.*?` bodies, greedy runs, the order in which alternatives of an
optional group are tried, and lookahead. `search`, `finditer`, `sub` and
`split` are built on them with Python's leftmost, non-overlapping semantics.

**Reference definitions.** The IPA, part-of-speech, gender and keyed-form
extractors are stated against a declarative definition of what they look for:
`LautschriftHit`, `WortartHit`, `GenusHit` and `KeyHit`. The lemmas prove that
each of these extractors returns the value of the *first* such occurrence in
the text. When there is none, the IPA, part-of-speech and keyed-form
extractors return nothing, while the gender extractor returns
`Outcome.IndexError`, because the source indexes the first match without
checking that there is one. The audio and examples extractors
are stated against the matchers instead. The audio file is `BestAudio`'s choice
among the `finditer` matches of the first pronunciation section. The examples
come from the lines of the first `search` match of the examples section.
`sub` is characterised by the matches `finditer` reports (`SubRebuildsMatches`),
and `finditer` by `search` resumed after each match (`FindIterResumes`).

**Loops.** The two loops of the source are methods proved against the
functions that specify them:

- the reverse scan of `get_best_audio_match`, as `BestAudioMatch`;
- the per-line loop of `get_examples_from_wikitext`, as `ExamplesFromWikitext`.

**Where the model follows the code.** In these places the model does what the
code does, not what a reader of the docstrings might expect:

- `get_gender_from_wikitext` indexes `matches[0]` without checking that there
  is a match. A page without a gender key therefore raises `IndexError`; it
  does not return `None`. `GenderFromWikitext` returns `Outcome.IndexError`
  exactly then.
- The citation pattern is applied once. A citation nested inside another
  citation's opening tag can survive the removal (`NestedRefSurvives`), so an
  example is not guaranteed to be free of `<ref>` tags.
- The optional group of the audio pattern is an alternation between nothing
  and `spr=at`, and Python tries the empty alternative first. A recording
  marked `spr=at` is therefore captured with its `spr` group, but its file name
  keeps the separator before the marker. A recording marked with any other
  region has no `spr` group and keeps the whole marker inside its file name, so
  the selection rule sees it as unmarked. `AudioGroupAlternation` pins down
  both cases.

## Model

| member | source | states |
|---|---|---|
| `Wiktionary.LastPreferred` | addon/wiktionary.py:85-90 | the index found is a preferred recording (no `spr` group, file name starting with `De-`), and no later recording is preferred; `None` only when no recording is preferred |
| `Wiktionary.BestAudio` | addon/wiktionary.py:81-94 | `None` exactly for the empty list; otherwise the last preferred recording's file name, or the first recording's when none is preferred; the result is always some candidate's file name |
| `Wiktionary.BestAudioMatch` | addon/wiktionary.py:81-94 | the reverse loop with its early return computes `BestAudio` |
| `Wiktionary.AudioSprIsAt` | addon/wiktionary.py:78 | every `spr` group the audio pattern captures is `at` |
| `Wiktionary.AudioGroupAlternation` | addon/wiktionary.py:78 | a recording of file X marked `spr=at` gives the file name X followed by the separator, with `spr` = `at`; one marked `spr=ch` gives the file name X, separator and `spr=ch`, with no `spr` group |
| `Wiktionary.AudioRegionAt` | addon/wiktionary.py:78 | the whole match of the recording marked `spr=at`: extent, file group and `spr` group |
| `Wiktionary.AudioRegionOther` | addon/wiktionary.py:78 | the whole match of the recording marked `spr=ch`: extent, file group and no `spr` group |
| `Wiktionary.AudioMatchAt` | addon/wiktionary.py:78 | unfolding bridge: the audio pattern is the lazy file body after the `Audio` template opener, ended by the optional `spr=at` and `}}` |
| `Wiktionary.AudioFileFromWikitext` | addon/wiktionary.py:100-111 | no file exactly when there is no pronunciation section, no recording in it, or the chosen name is empty; otherwise the name `BestAudio` chooses among the recordings `finditer` finds in the first section; it is non-empty and never spans lines |
| `Wiktionary.LazyBodyNoNewline` | addon/wiktionary.py:78 | a lazy body without DOTALL contains no newline |
| `Wiktionary.AudioFileNoNewline` | addon/wiktionary.py:78-94 | a selected file name contains no newline |
| `Wiktionary.AudioUrlFromWikitext` | addon/wiktionary.py:100-117 | a URL exactly when a file is chosen and the lookup gives a non-empty URL for it, and then it is that URL |
| `Wiktionary.FirstGroup` | addon/wiktionary.py:124-128 | the group of the first match, present exactly when `search` finds one |
| `Wiktionary.LautschriftMatchIsHit` | addon/wiktionary.py:120 | every match of the IPA pattern is a `Lautschrift` template ended by the first `}}`, with no newline in its body |
| `Wiktionary.LautschriftMatchText` | addon/wiktionary.py:120 | the text of a match is the opener, the body, then `}}` |
| `Wiktionary.LautschriftMatchBody` | addon/wiktionary.py:120 | the body of a match holds no `}}` before its closing one |
| `Wiktionary.LautschriftHitIsMatch` | addon/wiktionary.py:120 | every such template is the match at its position, with its body and extent |
| `Wiktionary.LautschriftHitScan` | addon/wiktionary.py:120 | inside a template's body there is neither a `}}` nor a newline |
| `Wiktionary.IpaHitMatches` | addon/wiktionary.py:120 | a template at `p` means the IPA pattern matches at `p` |
| `Wiktionary.IpaMatchAt` | addon/wiktionary.py:120 | unfolding bridge: the IPA pattern is a lazy body after the `Lautschrift` template opener, ended by `}}` |
| `Wiktionary.IpaFromWikitext` | addon/wiktionary.py:123-128 | `None` exactly when the page has no Lautschrift template; otherwise the body of the first one, which has no newline and no `}}` |
| `Wiktionary.IpaAbsent` | addon/wiktionary.py:124-127 | `findall` finds nothing exactly when there is no template |
| `Wiktionary.IpaFirst` | addon/wiktionary.py:124-128 | the first `findall` group is the body of the leftmost template |
| `Wiktionary.IpaNoHitBefore` | addon/wiktionary.py:120-128 | where the pattern fails at every position before `p`, no template starts before `p` |
| `Wiktionary.HitBodyClean` | addon/wiktionary.py:120 | a body closed by its first `}}` contains no `}}` |
| `Wiktionary.SpeachPartOfToken` | addon/wiktionary.py:142-154 | only `Substantiv`, `Verb`, `Adjektiv`, `Lokaladverb` and `Personalpronomen` are recognised; `Substantiv` is `PLURAL` when the page has no singular and `NOUN` otherwise; `NUMBER` and `JUNKTION` never come out |
| `Wiktionary.WortartMatchAt` | addon/wiktionary.py:131-133 | unfolding bridge: the part-of-speech pattern is matched as `WortartAt` says |
| `Wiktionary.WortartAtIsHit` | addon/wiktionary.py:131-133 | every match is a `Wortart` template for `Deutsch` whose token `t` is the maximal run of word characters |
| `Wiktionary.WortartHitIsAt` | addon/wiktionary.py:131-133 | every such template is matched at its position, with its token |
| `Wiktionary.WortartHitMatches` | addon/wiktionary.py:131-133 | a template at `p` means the pattern matches at `p` |
| `Wiktionary.WortartAbsent` | addon/wiktionary.py:138-140 | the pattern finds nothing exactly when the page has no such template |
| `Wiktionary.WortartFirst` | addon/wiktionary.py:138-141 | the first match is the leftmost template and carries its token |
| `Wiktionary.FirstWortartUnique` | addon/wiktionary.py:141 | there is at most one leftmost template |
| `Wiktionary.FirstToken` | addon/wiktionary.py:138-141 | the first match's token, characterised by the templates alone: none without templates, the leftmost template's token otherwise |
| `Wiktionary.SpeachPartFromWikitext` | addon/wiktionary.py:137-154 | the leftmost template alone decides, through the token table, with `{{kSg.}}` anywhere on the page turning a noun into `PLURAL`; no template gives `None`; a result comes from a recognised token |
| `Wiktionary.FirstTemplateDecides` | addon/wiktionary.py:141-154 | an unrecognised first token gives `None` even when a later template says `Verb` |
| `Wiktionary.GenusMatchAt` | addon/wiktionary.py:157 | unfolding bridge: the gender pattern is matched as `GenusAt` says |
| `Wiktionary.GenusAtIsHit` | addon/wiktionary.py:157 | every match is a `Genus=x` or `Genus d=x` key, and its group is the single letter `x` |
| `Wiktionary.GenusHitIsAt` | addon/wiktionary.py:157 | every such key is matched at its position, with its letter |
| `Wiktionary.GenusHitMatches` | addon/wiktionary.py:157 | a key at `p` means the gender pattern matches at `p` |
| `Wiktionary.GenusAbsent` | addon/wiktionary.py:157-161 | the pattern finds nothing exactly when the page has no gender key |
| `Wiktionary.GenusFirst` | addon/wiktionary.py:161-162 | the first match is the leftmost key, and its group is that key's letter |
| `Wiktionary.FirstGenusUnique` | addon/wiktionary.py:162 | there is at most one leftmost key |
| `Wiktionary.FirstGenusLetter` | addon/wiktionary.py:161-162 | the first match's group, characterised by the keys alone |
| `Wiktionary.GenderFromWikitext` | addon/wiktionary.py:160-170 | `IndexError` exactly when the page has no gender key; otherwise the gender of the leftmost key's letter (m, f, n) |
| `Wiktionary.GenderFromLetter` | addon/wiktionary.py:164-170 | `m`, `f` and `n` give male, female and neuter, each only from its letter; any other letter gives none |
| `Wiktionary.KeyedMatchAt` | addon/wiktionary.py:173 | unfolding bridge: a keyed pattern is matched as `KeyedAt` says |
| `Wiktionary.KeyedAtIff` | addon/wiktionary.py:173 | a keyed pattern matches at `p` exactly when the key (with ` 1` where allowed), `=` and one value character sit there; the group is the whole value run |
| `Wiktionary.KeyedAbsent` | addon/wiktionary.py:176-179 | a keyed pattern finds nothing exactly when the key never occurs with a value |
| `Wiktionary.KeyedFirst` | addon/wiktionary.py:177-180 | the first match is at the leftmost key, and its group is the value there |
| `Wiktionary.KeyedExtract` | addon/wiktionary.py:176-180 | the first group of a keyed pattern meets `KeyedResult`: none without a key, otherwise the leftmost key's whole value |
| `Wiktionary.PluralFromWikitext` | addon/wiktionary.py:173-180 | `KeyedResult` for `Nominativ Plural`, optional ` 1`, word characters |
| `Wiktionary.GenitiveFromWikitext` | addon/wiktionary.py:183-190 | `KeyedResult` for `Genitiv Singular`, optional ` 1`, word characters |
| `Wiktionary.HelpVerbFromWikitext` | addon/wiktionary.py:220-227 | `KeyedResult` for `Hilfsverb`, word characters |
| `Wiktionary.PrateritumFromWikitext` | addon/wiktionary.py:230-237 | `KeyedResult` for `Präteritum_ich`, word characters and spaces |
| `Wiktionary.Partizip2FromWikitext` | addon/wiktionary.py:240-247 | `KeyedResult` for `Partizip II`, word characters and spaces |
| `Wiktionary.OnlyFirstOrdinal` | addon/wiktionary.py:173 | `Nominativ Plural 2=` is not a plural key |
| `Wiktionary.ExampleLines` | addon/wiktionary.py:198-202 | no lines without an examples section; otherwise the lines joined by newlines give back the section body, every line after the first starts with `:`, and no line holds a newline followed by `:` |
| `Wiktionary.Decite` | addon/wiktionary.py:206-208 | the line without sense references, newlines and citations: no newline, only characters of the line, never longer; a line with no `:[`, no `<ref` and no newline is returned unchanged |
| `Wiktionary.NoCitation` | addon/wiktionary.py:193-208 | without `:[` no sense reference matches, and without `<ref` no citation |
| `Wiktionary.DeciteRebuilds` | addon/wiktionary.py:206-208 | the decited line drops exactly the sense references `finditer` reports, then the newlines, then exactly the citations `finditer` reports, and keeps everything between them |
| `Wiktionary.CleanExample` | addon/wiktionary.py:206-210 | the cleaned line has no newline, only characters of the line, and neither starts nor ends with a quote character |
| `Wiktionary.CleanExampleSlice` | addon/wiktionary.py:209-210 | the cleaned text is one contiguous part of the decited line, and everything cut off on either side is whitespace or a quote character |
| `Wiktionary.StripQuotesFacts` | addon/wiktionary.py:209-210 | the two `strip` calls keep only characters of their input and leave no quote character at either end |
| `Wiktionary.KeepExampleCases` | addon/wiktionary.py:211 | the filter drops the empty text and the `::Anneliese` placeholder, keeps a text of 150 characters and drops one of 151 |
| `Wiktionary.Emphasize` | addon/wiktionary.py:214 | bolding grows a text by at most 7/4 of its length, keeps a non-empty text non-empty, adds only the tag characters, and leaves a text without `''` unchanged |
| `Wiktionary.EmphasizeMatches` | addon/wiktionary.py:214 | the first `''x''` becomes `<b>x</b>` in place, the text before it is kept and bolding goes on after it; overall exactly the spans `finditer` reports are bolded |
| `Wiktionary.NoEmphasis` | addon/wiktionary.py:214 | without `''` the emphasis pattern does not match |
| `Wiktionary.ExampleOf` | addon/wiktionary.py:206-215 | a line contributes nothing exactly when its cleaned text is empty, starts with `::Anneliese` or exceeds 150 characters; a contribution is non-empty, has no newline, is at most 262 characters and uses only characters of the line and of the `<b>` tags |
| `Wiktionary.BoldedChars` | addon/wiktionary.py:206-214 | bolding a text made of characters of the line gives only characters of the line or of the tags, and no newline when the text has none |
| `Wiktionary.Truncate` | addon/wiktionary.py:217 | `xs[:n]`: a prefix of length `n`, or all of `xs` when it is shorter |
| `Wiktionary.Examples` | addon/wiktionary.py:197-217 | at most five examples; none without an examples section |
| `Wiktionary.ExamplesFromWikitext` | addon/wiktionary.py:197-217 | the loop over the lines computes `Examples` |
| `Wiktionary.ExamplesAreKeptLines` | addon/wiktionary.py:205-215 | every returned example is a kept line of the section, cleaned and bolded |
| `Wiktionary.TruncatedIndexes` | addon/wiktionary.py:204-217 | the first `n` present values sit, in order, at the first `n` of their positions; any present value left out comes after the `n`-th |
| `Wiktionary.ExamplesInOrder` | addon/wiktionary.py:197-217 | the examples come from strictly increasing line positions; every kept line is among them unless five were already returned before it |
| `Wiktionary.ExampleLengthBound` | addon/wiktionary.py:211-214 | a returned example is at most 262 characters: 150 before bolding and at most 7/4 of that after |
| `Wiktionary.RefNeedsOpening` | addon/wiktionary.py:193 | the citation pattern matches only where `<ref` starts |
| `Wiktionary.NoRefFrom` | addon/wiktionary.py:208 | without `<ref` the citation removal leaves the text unchanged |
| `Wiktionary.NestedRefSurvives` | addon/wiktionary.py:193-208 | `<re<ref>a</ref>f>b</ref>` becomes `<ref>b</ref>`: one pass of removal can leave a citation |
| `Wiktionary.NestedRefInner` | addon/wiktionary.py:193 | in that text the first citation match is the inner one, at index 3 |
| `Wiktionary.NestedRefNoEarlier` | addon/wiktionary.py:193 | the broken outer opener does not match |
| `Wiktionary.NestedRefTail` | addon/wiktionary.py:208 | after the inner citation the rest of the text is kept |
| `Patterns.RunEnd` | addon/wiktionary.py:173 | a greedy run: every character up to the end is in the class, and the next one is not |
| `Patterns.LastAt` | addon/wiktionary.py:97 | the last occurrence of a literal in a range, as `[^{]+\}\}` backtracks to it |
| `Patterns.CloseAt` | addon/wiktionary.py:78-97 | the terminator test: for a literal, exactly where it occurs, ending after it; for the audio tail, exactly where `}}` or `spr=at}}` occurs, with `spr` captured only for `spr=at}}`, ending after the braces |
| `Patterns.TemplateLineClose` | addon/wiktionary.py:97 | the template-line terminator matches only at `\n{{` and ends at a `}}` with at least one character and no `{` before it; at `\n{{` it matches whenever such a `}}` exists, and ends at the last one |
| `Patterns.KeyedAt` | addon/wiktionary.py:173 | a keyed match exactly when the key with ` 1=` (where allowed) or with `=` is followed by a value character; it starts at the key |
| `Patterns.GenderSuffixEnd` | addon/wiktionary.py:132 | the optional `, +{{g}}` suffix is consumed exactly when a comma, at least one space, `{{`, a gender letter and `}}` follow; it ends after the `}}` |
| `Patterns.GenderSuffixRun` | addon/wiktionary.py:132 | the run of spaces after the comma of a suffix ends at its `{{` |
| `Patterns.RefAt` | addon/wiktionary.py:193 | a citation match exactly when `<ref`, non-`>` characters, a `>`, a body without newline and `</ref>` follow; the match ends at the first `</ref>` after the `>` |
| `Patterns.RefOpenerAt` | addon/wiktionary.py:193 | the greedy run of non-`>` characters after `<ref` stops at the opening tag's `>` |
| `Patterns.RefClose` | addon/wiktionary.py:193 | the lazy citation body ends exactly at the first `</ref>` reachable without a newline, and fails only when there is none |
| `Patterns.RefScanTail` | addon/wiktionary.py:193 | where the lazy scan stops, a citation body ends |
| `Patterns.RefTailScan` | addon/wiktionary.py:193 | every citation body is where the lazy scan stops |
| `Patterns.SenseRefAt` | addon/wiktionary.py:206 | a sense-reference match is `:[`, at least one word character, space, comma or en dash, then `]`; whenever that shape is at `p`, the pattern matches it there |
| `Patterns.RefSpansAt` | addon/wiktionary.py:193 | every citation at a position has its `>` where the run of non-`>` characters after `<ref` stops, and its `</ref>` where the lazy body scan stops |
| `Patterns.RefSpanShape` | addon/wiktionary.py:193 | a citation starts with `<ref`, holds a `>` before its closing `</ref>` and lies within the text |
| `Patterns.ReachableNoNewline` | addon/wiktionary.py:120 | without DOTALL, a stretch a lazy body can cover holds no newline |
| `Patterns.LazyScan` | addon/wiktionary.py:97-120 | a lazy body ends at the first reachable index where the terminator matches, and fails only when there is none |
| `Patterns.ValueAfter` | addon/wiktionary.py:173 | a match exactly when the prefix is followed by a class character; the group is the maximal run after the prefix |
| `Patterns.RunIsMaximal` | addon/wiktionary.py:173 | a non-empty greedy run cannot be extended |
| `Patterns.GenusAt` | addon/wiktionary.py:157 | a gender match captures one gender letter |
| `Patterns.WortartAt` | addon/wiktionary.py:132 | a match spells the `Wortart` template for `Deutsch` around its token, the maximal word run |
| `Patterns.LazyAt` | addon/wiktionary.py:78-120 | a match exactly when the opener occurs and the lazy body finds its terminator; the group is the body |
| `Patterns.Search` | addon/wiktionary.py:101 | `search` finds the leftmost position where the pattern matches, and fails only when there is none |
| `Patterns.FindIter` | addon/wiktionary.py:105 | `finditer` is empty exactly when `search` fails; it starts with the `search` match and lists matches of the pattern in order, without overlap |
| `Patterns.FindIterResumes` | addon/wiktionary.py:105 | `finditer` misses nothing: a search from the end of each match finds the next one, and a search after the last finds nothing |
| `Patterns.FindIterStep` | addon/wiktionary.py:105 | unfolding bridge: `finditer` from a position is the match `search` finds there followed by `finditer` from that match's end |
| `Patterns.Sub` | addon/wiktionary.py:206-208 | without a match `sub` returns the text; removing matches never lengthens it nor adds characters |
| `Patterns.SubRebuildsMatches` | addon/wiktionary.py:206-214 | `sub` replaces exactly the matches `finditer` reports, each by its replacement, and keeps the text between them |
| `Patterns.SubStep` | addon/wiktionary.py:206-214 | `sub` copies the text before the first match `search` finds, puts the replacement in its place and continues after the match |
| `Patterns.Split` | addon/wiktionary.py:202 | `split` returns at least one piece |
| `Patterns.SearchFindsLeftmost` | addon/wiktionary.py:101 | a match with no match to its left is what `search` returns |
| `Patterns.LazyLitUnique` | addon/wiktionary.py:120 | a body ended by a literal ends at the first reachable occurrence |
| `Patterns.LazyAtScan` | addon/wiktionary.py:78-120 | a lazy match is the opener, the scanned body and its terminator |
| `Patterns.LazyScanAt` | addon/wiktionary.py:78-97 | a body ends at the first reachable index where its terminator matches |
| `Patterns.LineBreakMatchAt` | addon/wiktionary.py:202 | unfolding bridge: `\n(?=:)` matches exactly the newline of a `\n:` pair, consuming only the newline |
| `Patterns.SplitLinesJoin` | addon/wiktionary.py:202 | joining the split lines with newlines gives back the text |
| `Patterns.SplitLinesStartWithColon` | addon/wiktionary.py:202 | every line after the first starts with `:` |
| `Patterns.SplitLinesUnbroken` | addon/wiktionary.py:202 | no line holds a newline followed by `:` |
| `Patterns.NoBreakIn` | addon/wiktionary.py:202 | a stretch where the split pattern never matches holds no `\n:` |
| `Patterns.EmphasisMatchShape` | addon/wiktionary.py:214 | an emphasis match is `''`, its body and `''`, and the body has no newline |
| `Patterns.EmphasisGrowth` | addon/wiktionary.py:214 | bolding grows a text by at most 7/4 of its length |
| `Patterns.EmphasisChars` | addon/wiktionary.py:214 | bolding adds only the characters of the `<b>` tags |
| `Text.StripStart` | addon/wiktionary.py:209-210 | where `lstrip` stops: every character it skips is stripped, and the one it stops at is not |
| `Text.StripEnd` | addon/wiktionary.py:209-210 | where `rstrip` stops: every character it drops is stripped, and the one before it is not |
| `Text.Strip` | addon/wiktionary.py:209-210 | `strip`: the part of the text from where `lstrip` stops, with every character before and after it stripped; it neither starts nor ends with a stripped character; empty exactly when every character is stripped |
| `Text.RemoveNewlines` | addon/wiktionary.py:207 | `replace("\n", "")`: no newline remains, no character is added, and a text without newlines is unchanged |
| `Text.RemoveNewlinesCounts` | addon/wiktionary.py:207 | every character other than a newline is kept as often as it occurs, and no newline is |
| `Text.RemoveNewlinesAppend` | addon/wiktionary.py:207 | removing newlines from two joined texts is removing them from each, so the other characters keep their order |
| `Text.StripTwice` | addon/wiktionary.py:209-210 | `strip()` followed by `strip(chars)` is one contiguous part of the text, starting where the two `lstrip`s stop |
| `Text.StripTwiceAt` | addon/wiktionary.py:209-210 | where the twice-stripped part lies in the text |
| `Text.StripTwiceEnds` | addon/wiktionary.py:210 | the twice-stripped text neither starts nor ends with a character of the second set |
| `Text.StripTwiceTrimmed` | addon/wiktionary.py:209-210 | everything the two strips cut off, on either side, is in one of the two sets |
| `Text.NestedSlice` | addon/wiktionary.py:209-210 | a part of a part, each with only stripped characters around it, is a part of the text with only stripped characters around it |
| `Text.WordCharFacts` | addon/wiktionary.py:132-133 | `\w` holds for umlauts, `ß`, digits and `_`, and not for `|`, space, `=`, `}` or the en dash |
| `Text.SpaceFacts` | addon/wiktionary.py:209 | `strip()` removes space, newline, tab, carriage return, no-break space and the ideographic space, and not letters, the quote marks `„` and `»`, or the zero-width space |
| `CardHtml.GenderToArticle` | addon/card_html.py:36-40 | `der`, `die` and `das` for male, female and neuter, and each only for its gender |
| `CardHtml.GenderToText` | addon/card_html.py:5-34 | the card text of a gender holds its article right after the coloured bold opening tag |
| `CardHtml.GenderToTextInjective` | addon/card_html.py:30-34 | different genders get different card texts |
| `CardHtml.SpeachPartToText` | addon/card_html.py:9-28 | every part of speech has a label, holding the enum value right after the coloured opening |
| `CardHtml.SpeachPartToTextInjective` | addon/card_html.py:19-28 | different parts of speech get different labels |
| `CardHtml.Bold` | addon/card_html.py:43-44 | the bold opening tag, then the text, then `</span>` |
| `CardHtml.Italic` | addon/card_html.py:47-48 | the italic opening tag, then the text, then `</span>` |
| `CardHtml.BoldInjective` | addon/card_html.py:43-44 | different texts give different bold spans |
| `CardHtml.ItalicInjective` | addon/card_html.py:47-48 | different texts give different italic spans |

## Left out

- The page lookups `find_word_page`, `get_page_wikitext` and `get_file_url` (addon/wiktionary.py:20-75) are network calls. `AudioUrlFromWikitext` takes the file-URL lookup as a function parameter instead.
- The `print` call for a missing URL (addon/wiktionary.py:115) is console output; only its `None` result is modelled.
- `Text.IsWordChar` classifies `\w` exactly only for U+0000..U+024F. Every other code point counts as a non-word character, so a Cyrillic or CJK letter ends a run here where Python would continue it.
- `Text.IsDecimalDigit` accepts only ASCII digits, while Python's `\d` also accepts other Unicode decimal digits.
- The `gender` group of the part-of-speech pattern is never read by the source. The model matches the optional suffix, so the match's end is right, but does not capture the group.
- There is no general regular-expression engine. Each pattern of the source has its own matcher, and `Sub` and `Split` cover only what those patterns need: `Split` assumes a pattern without capture groups, and `\1` is the only back-reference in a replacement.
- `addon/__init__.py` and `addon/shortcut_actions/` are not part of this model: they are the Anki user interface that calls the extractors.
- `Patterns.Split`: it states only that a split always returns at least one piece. The split of the examples section is characterised by `SplitLinesJoin`, `SplitLinesStartWithColon` and `SplitLinesUnbroken`.
- `Wiktionary.Examples`: it states the bound and the empty case. That the examples are the kept lines in order is stated by `ExamplesAreKeptLines` and `ExamplesInOrder`.
- `Patterns.Sub`: its own contract states the no-match case and the bounds. Which matches are replaced, and by what, is stated by `SubRebuildsMatches` and `SubStep`.
- `Wiktionary.Decite`: its own contract states the character and length bounds and the unchanged case. Which parts are removed is stated by `DeciteRebuilds`.
- `Wiktionary.CleanExample`: its own contract states the newline, character and end facts. Where the result lies in the decited line, and what is cut off around it, is stated by `CleanExampleSlice`.

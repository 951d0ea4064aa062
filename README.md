# Ourora landing pages: word tokenizer, call-to-action threshold and random word effects

The repository holds two marketing landing pages (`web/src/app/page.tsx` and
`src/app/page.tsx`). Their scroll animations run inside GSAP/ScrollTrigger.
The rules the pages compute themselves are modelled here:

- **Tokenizer** (`Words`, shared by both pages). `splitIntoWordSpans` splits a
  paragraph with the capturing split `/(\s+)/` and gives each token the id
  `w-<i>` from a counter. `Paragraph` gives each token the class `"word"`
  unless the token matches `/^\s+$/`. The split is `Words.Split`. The counter
  loop is the method `Words.SplitIntoWordSpans`, proved equal to the
  positional function `Words.WordSpans`.
  The lemmas prove four things:
  - the round trip;
  - the alternating shape of the split;
  - that this shape plus the round trip singles the split out (uniqueness);
  - that ids are distinct.
- **Layout rules** (`Layout`):
  - the class string of a `TestimonialFigure`, `[base, className].filter(Boolean).join(" ")`;
  - the initial x offset of each testimonial figure: -48 for even positions,
    48 for odd ones, written by a `forEach` over the figures.
- **Floating call-to-action** (`FloatingCta`). `updateCTAVisibility` clamps
  the scrollable distance at 0. When nothing can scroll it returns early
  with the call-to-action hidden, so it divides only by a positive
  distance; otherwise it shows the call-to-action iff
  `scrollTop / scrollable >= 0.2`.
  The `Home` class holds the `showCTA` state that the handler writes.
- **Random word effects** (`WordEffects`, second page):
  - the target count `min(20, max(6, round(0.15 n)))`;
  - the rejection-sampling loop that fills an insertion-ordered `Set` of
    distinct indices;
  - the `chosen` mapping;
  - the four-entry preset table;
  - the per-word preset draw.
  `Math.random()` is an injected finite sequence of draws in [0, 1). An
  oracle that runs dry stands for a run that has not finished yet. For
  1 to 5 words the selection loop never exits: the target count is at
  least 6, more than the distinct indices available.

## Model

| member | source | states |
|---|---|---|
| `Words.IsSpace` | web/src/app/page.tsx:16 | membership in the ECMAScript `\s` class; its role in the split is stated by `Words.SplitWellFormed`, `Words.SplitFirst` and `Words.SplitLast` |
| `Words.NonSpacePrefix` | web/src/app/page.tsx:16 | the result is the length of the longest whitespace-free prefix: the prefix has no `\s`, and the next character, if any, is `\s` |
| `Words.SpacePrefix` | web/src/app/page.tsx:16 | the result is the length of the longest all-whitespace prefix: the next character, if any, is not `\s` |
| `Words.Split` | web/src/app/page.tsx:16 | `text.split(/(\s+)/)` always returns an odd number of tokens |
| `Words.SplitRoundTrip` | web/src/app/page.tsx:14-19 | concatenating the tokens in order gives back exactly the text, for every text including `""` and text with edge whitespace |
| `Words.SplitWellFormed` | web/src/app/page.tsx:16 | the split has an odd number of tokens; even positions have no whitespace; odd positions are non-empty whitespace runs; only the first and last token can be empty |
| `Words.SplitUnique` | web/src/app/page.tsx:16 | every well-formed sequence of tokens that concatenates to the text equals the split, so shape plus round trip determine the split |
| `Words.SplitFirst` | web/src/app/page.tsx:16 | the first token is empty iff the text is empty or starts with whitespace |
| `Words.SplitLast` | web/src/app/page.tsx:16 | the last token is empty iff the text is empty or ends with whitespace |
| `Words.SplitDoubleSpace` | src/app/page.tsx:16 | `"a  b"` splits into `["a", "  ", "b"]` |
| `Words.SplitEdgeSpaces` | src/app/page.tsx:16 | `" a "` splits into `["", " ", "a", " ", ""]` |
| `Words.NatToString` | web/src/app/page.tsx:18 | the decimal numeral used in the id has at least one digit, and at least two digits from 10 upward |
| `Words.NatToStringInjective` | web/src/app/page.tsx:18 | different numbers have different numerals |
| `Words.IdInjective` | web/src/app/page.tsx:18 | `w-i` equals `w-j` only when i = j |
| `Words.Id` | web/src/app/page.tsx:18 | the id `w-${i}` starts with `w-` followed by at least one digit; `Words.IdInjective` states that distinct positions get distinct ids |
| `Words.WordSpans` | web/src/app/page.tsx:14-19 | the positional span list; `Words.SplitIntoWordSpans` proves the counter loop computes it and `Words.SpansRoundTrip` states its round trip and distinct ids |
| `Words.SplitIntoWordSpans` | web/src/app/page.tsx:14-19 | the counter loop gives token k the id `w-k` and the word `Split(text)[k]`, for every k |
| `Words.SpansRoundTrip` | src/app/page.tsx:14-19 | the words of the spans concatenate to the text, and the span ids are pairwise distinct even when words repeat |
| `Words.SpanClass` | web/src/app/page.tsx:26-28 | `isSpace ? undefined : "word"`; `Words.ParagraphClasses` states which spans get which class |
| `Words.Paragraph` | web/src/app/page.tsx:21-35 | the rendered spans; `Words.ParagraphClasses` and `Words.ParagraphText` state their classes, texts and keys |
| `Words.ParagraphClasses` | src/app/page.tsx:26-28 | a span has no class iff its position is odd; every even-position span, including an empty edge token, has class `"word"` |
| `Words.ParagraphText` | web/src/app/page.tsx:22-32 | the rendered spans reproduce the text in order, and their React keys are pairwise distinct |
| `Layout.Truthy` | web/src/app/page.tsx:39 | `filter(Boolean)` keeps exactly the non-empty parts: no empty string survives, every non-empty part does, a list without empty parts is unchanged, and the list never grows |
| `Layout.TruthyAppend` | web/src/app/page.tsx:39 | `filter(Boolean)` keeps the order: filtering a concatenation concatenates the filtered parts, and a single part survives iff it is non-empty |
| `Layout.Join` | web/src/app/page.tsx:39 | `.join(" ")`; its results for the figure's two parts are stated by `Layout.JoinClasses` |
| `Layout.JoinClasses` | web/src/app/page.tsx:39 | with an empty base the result is the extra class; with a non-empty base it is the base alone when the extra class is empty, else base, a space and the extra class |
| `Layout.TestimonialClass` | web/src/app/page.tsx:38-39 | `cls` is the base classes when `className` is empty, and the base classes + `" "` + `className` otherwise |
| `Layout.InitialX` | web/src/app/page.tsx:267 | `i % 2 === 0 ? -48 : 48`; its pattern is stated by `Layout.OffsetsAlternate` |
| `Layout.OffsetsAlternate` | src/app/page.tsx:87-89 | figure i starts at -48 iff i is even; neighbours start on opposite sides; the pattern repeats every two figures |
| `Layout.SetInitialOffsets` | web/src/app/page.tsx:266-268 | after the loop, figure i has x = -48 for even i and 48 for odd i; iteration i writes no other figure |
| `FloatingCta.Scrollable` | web/src/app/page.tsx:144 | the scrollable distance is 0 iff `scrollHeight <= clientHeight`, and `scrollHeight - clientHeight` otherwise |
| `FloatingCta.ShowCta` | web/src/app/page.tsx:141-151 | hidden whenever `scrollHeight <= clientHeight`; otherwise shown iff `5 * scrollTop >= scrollHeight - clientHeight` |
| `FloatingCta.ThresholdScaled` | web/src/app/page.tsx:149-150 | for positive d, `top / d >= 0.2` iff `5 * top >= d` |
| `FloatingCta.ShowCtaMonotone` | web/src/app/page.tsx:149-150 | scrolling further down never hides a shown call-to-action |
| `FloatingCta.ShowCtaEnds` | web/src/app/page.tsx:145-150 | hidden at `scrollTop = 0`; shown whenever the page can scroll and `scrollTop` is at least the scrollable distance |
| `FloatingCta.Home.constructor` | web/src/app/page.tsx:54 | `showCTA` starts false |
| `FloatingCta.Home.UpdateCtaVisibility` | web/src/app/page.tsx:141-151 | the handler stores `ShowCta(scrollTop, scrollHeight, clientHeight)` in `showCTA` |
| `WordEffects.Round` | src/app/page.tsx:109 | `Math.round(x)` lies within half a unit of x, with halves rounded up |
| `WordEffects.TargetCount` | src/app/page.tsx:109 | the target count always lies in [6, 20] |
| `WordEffects.TargetCountClosedForm` | src/app/page.tsx:108-109 | the target count equals `min(20, max(6, (3n + 10) / 20))` in integer arithmetic; 40 words give 6 and 200 words give 20 |
| `WordEffects.TooFewWords` | src/app/page.tsx:107-111 | for a non-empty section, n is below the target count iff n < 6 |
| `WordEffects.DrawIndex` | src/app/page.tsx:112 | `Math.floor(Math.random() * words.length)` for a given draw; `WordEffects.DrawIndexInRange` states that it lies in [0, n) |
| `WordEffects.Drawn` | src/app/page.tsx:111-112 | the index picked by each draw, one per draw, in order; `WordEffects.DrawnInRange` states that all lie in [0, n) |
| `WordEffects.DrawIndexInRange` | src/app/page.tsx:112 | `Math.floor(r * n)` lies in [0, n) for every draw r in [0, 1) and n > 0 |
| `WordEffects.Dedup` | src/app/page.tsx:110-114 | `Array.from` of the `Set` built by the insertions is no longer than the insertions |
| `WordEffects.DedupMembers` | src/app/page.tsx:110-114 | the set holds no repeats and holds exactly the inserted values |
| `WordEffects.DedupBounded` | src/app/page.tsx:112 | when every inserted index lies in [0, n), so does every index in the set |
| `WordEffects.DedupPrefix` | src/app/page.tsx:110-114 | the set after fewer insertions is a prefix of the set after more, so insertion order is kept and the set only grows |
| `WordEffects.DistinctBounded` | src/app/page.tsx:111 | at most n distinct indices lie in [0, n) |
| `WordEffects.FirstFill` | src/app/page.tsx:111-113 | the loop exits after exactly u draws: the set holds `targetCount` indices after draw u and fewer after every earlier draw |
| `WordEffects.FirstFillUnique` | src/app/page.tsx:111-113 | the exit draw is unique |
| `WordEffects.FirstFillFull` | src/app/page.tsx:111-113 | if the loop exits at some draw, all the draws together give at least `targetCount` distinct indices |
| `WordEffects.FillIndexSet` | src/app/page.tsx:110-113 | for a given `targetCount`: if the loop exits, it exits at the first draw that fills the set, and `indices` has exactly `targetCount` distinct elements, all in [0, n), in insertion order; it runs out of draws iff all the draws together give fewer distinct indices than `targetCount`; for n < `targetCount` it never exits |
| `WordEffects.SelectIndices` | src/app/page.tsx:109-113 | with `targetCount = TargetCount(n)`: if the loop exits, it exits at the first draw that fills the set, and `indices` has exactly `targetCount` distinct elements, all in [0, n), in insertion order; it runs out of draws iff all the draws together give fewer distinct indices than the target; for n < target it never exits |
| `WordEffects.SelectionCanFinish` | src/app/page.tsx:110-113 | when n >= target, some sequence of draws fills the set, so `n >= targetCount` is the only condition for the loop to exit |
| `WordEffects.Chosen` | src/app/page.tsx:114 | `Array.from(indices).map((i) => words[i])`; `WordEffects.ChosenDistinct` states its length, its members and that no word repeats |
| `WordEffects.ChosenDistinct` | src/app/page.tsx:114 | `chosen` has one word per index, in insertion order, and no word twice when the words and indices are distinct |
| `WordEffects.Effects` | src/app/page.tsx:119-124 | there are four presets, and each preset's `from` and `to` have the same property keys |
| `WordEffects.PresetIndex` | src/app/page.tsx:125 | `Math.floor(r * effects.length)` lies in [0, 4) for every draw r in [0, 1) |
| `WordEffects.AssignPresets` | src/app/page.tsx:116-140 | word k of `chosen` gets the preset picked by draw `start + k`; the result is `None` iff the draws run out first |
| `WordEffects.AnimateWithTarget` | src/app/page.tsx:110-140 | for a given `targetCount`: `Pending(true)` iff the draws give fewer distinct indices than `targetCount`; `Pending(false)` iff the loop exits at its first filling draw u but fewer than `targetCount` draws follow u; otherwise `Animated`, with `used` that first filling draw and word k of `chosen` given the preset of draw `used + k`; no word is registered twice |
| `WordEffects.AnimateRandomWords` | src/app/page.tsx:105-141 | covers the whole `section4Ref` block: `NoWords` iff there are no words; 1 to 5 words give `Pending(true)`, the loop never exiting; `Pending(true)` iff the draws give fewer distinct indices than `TargetCount(n)`; `Pending(false)` iff the loop exits at its first filling draw u but fewer than `TargetCount(n)` draws follow u; otherwise `Animated`, with `used` that first filling draw, the indices the set held then, word k of `chosen` given the preset of draw `used + k`, and no word registered twice |

## Left out

- All GSAP/ScrollTrigger behaviour is left out because it lives in a foreign library. This covers:
  - `gsap.set/to/from/fromTo/timeline`;
  - scrub progress, easing, stagger, `toggleActions` and `ctx.revert`;
  - the opacity, y, scale and blur set on the figures before their x offset;
  - the `duration`, `ease` and `scrollTrigger` options merged into each preset's `to`.
  The model stops at the values the page hands to GSAP: x offsets, presets, and which words are registered.
- The page's other animations are not modelled: the aurora timeline, header highlights, path drawing and section reveals of `web/src/app/page.tsx`. They are GSAP configuration only.
- DOM access is not modelled; the values arrive as parameters instead. This covers:
  - `querySelectorAll`;
  - `document.documentElement`;
  - the `window.pageYOffset || doc.scrollTop || 0` fallback (`scrollTop` is passed in).
- Figures are the indices of an array of x values. The distinctness of DOM nodes is taken as given.
- Scroll and resize listener registration, the eager first call, React hooks and JSX rendering beyond the list of spans are left out. They are UI plumbing.
- `Math.random` is an injected finite sequence of draws. Nondeterminism across runs is out of scope. An oracle that runs dry yields `SelectionPending`, `None` or `Pending`, meaning "not finished yet".
- Floating point is replaced by exact reals:
  - the CTA ratio and the constant 0.2 are exact;
  - `n * 0.15` and its rounding are exact, not bit-for-bit IEEE doubles.
- `String.prototype.split` is a library call, so it is modelled as the function `Words.Split` rather than as a loop.
- `\s` is the ECMAScript WhiteSpace and LineTerminator set over code points. JavaScript strings are UTF-16. The split is the same either way, because every `\s` member is one BMP unit and no surrogate is whitespace.
- The static copy, the testimonial and feature arrays, and all Tailwind class content other than the figure's base class string are left out.
- `WordEffects.SelectIndices`, `WordEffects.FillIndexSet` and `WordEffects.AnimateWithTarget` require at least one word. In the source the `words.length > 0` guard at src/app/page.tsx:107 ensures this; `WordEffects.AnimateRandomWords` models that guard.

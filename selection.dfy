/** Random word effects of the second landing page: about 15% of the words of
    a section are picked at random, without repetition, and each picked word
    is given one of four from/to presets, also at random.

    `Math.random()` is an injected oracle: a finite sequence of draws, each in
    [0, 1), consumed in program order. An oracle that runs dry stands for a
    run that has not finished yet. */
module WordEffects {

  import opened Wrappers

  /** Lower and upper bound on the number of words picked. */
  const MinCount: nat := 6
  const MaxCount: nat := 20

  function Min(a: int, b: int): int { if a <= b then a else b }
  function Max(a: int, b: int): int { if a >= b then a else b }

  /** `Math.round`: rounds to the nearest integer, halves upward. */
  function Round(x: real): (r: int)
    ensures r as real - 0.5 <= x < r as real + 0.5
  {
    (x + 0.5).Floor
  }

  /** `Math.min(20, Math.max(6, Math.round(n * 0.15)))`. */
  function TargetCount(n: nat): (c: nat)
    ensures MinCount <= c <= MaxCount
  {
    Min(20, Max(6, Round(n as real * 0.15)))
  }

  lemma {:induction false} RoundFifteenPercent(n: nat)
    ensures Round(n as real * 0.15) == (3 * n + 10) / 20
  {
    var q, r := (3 * n + 10) / 20, (3 * n + 10) % 20;
    assert (3 * n + 10) as real == 20.0 * q as real + r as real;
    assert n as real * 0.15 + 0.5 == q as real + r as real / 20.0;
  }

  /** With exact arithmetic the target count has the integer form
      clamp((3n + 10) / 20, 6, 20); 40 words give 6 and 200 words give 20. */
  lemma {:induction false} TargetCountClosedForm(n: nat)
    ensures TargetCount(n) == Min(20, Max(6, (3 * n + 10) / 20))
    ensures TargetCount(40) == 6 && TargetCount(200) == 20
  {
    RoundFifteenPercent(n);
    RoundFifteenPercent(40);
    RoundFifteenPercent(200);
  }

  /** A non-empty section has fewer words than the target count exactly when
      it has fewer than six words. */
  lemma {:induction false} TooFewWords(n: nat)
    requires n > 0
    ensures n < TargetCount(n) <==> n < MinCount
  {
    TargetCountClosedForm(n);
    assert (3 * n + 10) / 20 <= n;
  }

  /** What `Math.random()` may return. */
  predicate IsDraw(r: real) { 0.0 <= r < 1.0 }

  predicate AllDraws(draws: seq<real>) {
    forall k :: 0 <= k < |draws| ==> IsDraw(draws[k])
  }

  /** `Math.floor(r * n)`: the index a draw picks among `n` items. */
  function DrawIndex(r: real, n: nat): int {
    (r * n as real).Floor
  }

  lemma {:induction false} DrawIndexInRange(r: real, n: nat)
    requires IsDraw(r) && n > 0
    ensures 0 <= DrawIndex(r, n) < n
  {
    assert r * n as real < n as real by {
      assert (1.0 - r) * n as real > 0.0;
    }
  }

  /** The indices the draws pick among `n` items, in order. */
  function Drawn(draws: seq<real>, n: nat): (picks: seq<int>)
    ensures |picks| == |draws|
  {
    seq(|draws|, k requires 0 <= k < |draws| => DrawIndex(draws[k], n))
  }

  lemma {:induction false} DrawnInRange(draws: seq<real>, n: nat)
    requires AllDraws(draws) && n > 0
    ensures forall k :: 0 <= k < |draws| ==> 0 <= Drawn(draws, n)[k] < n
  {
    forall k | 0 <= k < |draws|
      ensures 0 <= Drawn(draws, n)[k] < n
    {
      DrawIndexInRange(draws[k], n);
    }
  }

  predicate NoDup<T(==)>(s: seq<T>) {
    forall i, j :: 0 <= i < j < |s| ==> s[i] != s[j]
  }

  /** `Array.from` of a `Set` fed the elements of `s` in order: each value
      once, in order of first insertion. */
  function Dedup(s: seq<int>): (d: seq<int>)
    ensures |d| <= |s|
  {
    if s == [] then []
    else
      var d := Dedup(s[..|s| - 1]);
      if s[|s| - 1] in d then d else d + [s[|s| - 1]]
  }

  /** The set holds exactly the values inserted into it, each once. */
  lemma {:induction false} DedupMembers(s: seq<int>)
    ensures NoDup(Dedup(s))
    ensures forall x :: x in Dedup(s) <==> x in s
  {
    if s != [] {
      var p := s[..|s| - 1];
      DedupMembers(p);
      assert s == p + [s[|s| - 1]];
    }
  }

  lemma {:induction false} DedupSnoc(s: seq<int>, x: int)
    ensures Dedup(s + [x]) == if x in Dedup(s) then Dedup(s) else Dedup(s) + [x]
  {
    assert (s + [x])[..|s + [x]| - 1] == s;
  }

  /** Inserting more values never moves or drops one already inserted: the
      set built from a prefix is a prefix of the set built from the whole. */
  lemma {:induction false} DedupPrefix(s: seq<int>, j: nat)
    requires j <= |s|
    ensures Dedup(s[..j]) <= Dedup(s)
    decreases |s| - j
  {
    if j < |s| {
      DedupPrefix(s, j + 1);
      assert s[..j + 1] == s[..j] + [s[j]];
      DedupSnoc(s[..j], s[j]);
    } else {
      assert s[..j] == s;
    }
  }

  /** A sequence that already has no repeats is its own set, in order. */
  lemma {:induction false} DedupOfDistinct(s: seq<int>)
    requires NoDup(s)
    ensures Dedup(s) == s
  {
    if s != [] {
      var p := s[..|s| - 1];
      assert NoDup(p);
      DedupOfDistinct(p);
      assert s[|s| - 1] !in p;
      assert p + [s[|s| - 1]] == s;
    }
  }

  function RangeSet(n: nat): (r: set<int>)
    ensures |r| == n
    ensures forall x :: x in r <==> 0 <= x < n
  {
    if n == 0 then {}
    else
      var r := RangeSet(n - 1);
      assert n - 1 !in r;
      r + {n - 1}
  }

  function Elements(s: seq<int>): (e: set<int>)
    ensures forall x :: x in e <==> x in s
    ensures NoDup(s) ==> |e| == |s|
  {
    if s == [] then {}
    else
      var e := Elements(s[1..]);
      assert s == [s[0]] + s[1..];
      assert NoDup(s) ==> NoDup(s[1..]) && s[0] !in s[1..];
      {s[0]} + e
  }

  /** Pigeonhole: at most `n` distinct indices lie in [0, n). */
  lemma {:induction false} DistinctBounded(s: seq<int>, n: nat)
    requires NoDup(s)
    requires forall k :: 0 <= k < |s| ==> 0 <= s[k] < n
    ensures |s| <= n
  {
    var e, r := Elements(s), RangeSet(n);
    assert e <= r;
    assert r == e + (r - e);
    assert |r| == |e| + |r - e|;
  }

  /** Indices in [0, n) go in, so indices in [0, n) come out. */
  lemma {:induction false} DedupBounded(s: seq<int>, n: nat)
    requires forall k :: 0 <= k < |s| ==> 0 <= s[k] < n
    ensures forall k :: 0 <= k < |Dedup(s)| ==> 0 <= Dedup(s)[k] < n
  {
    if s != [] {
      DedupBounded(s[..|s| - 1], n);
    }
  }

  /** The set built from draws over `n` items holds indices in [0, n), so
      at most `n` of them. */
  lemma {:induction false} DedupDrawnInRange(draws: seq<real>, n: nat)
    requires AllDraws(draws) && n > 0
    ensures forall k :: 0 <= k < |Dedup(Drawn(draws, n))| ==> 0 <= Dedup(Drawn(draws, n))[k] < n
    ensures |Dedup(Drawn(draws, n))| <= n
    ensures NoDup(Dedup(Drawn(draws, n)))
  {
    var d := Dedup(Drawn(draws, n));
    DrawnInRange(draws, n);
    DedupMembers(Drawn(draws, n));
    DedupBounded(Drawn(draws, n), n);
    DistinctBounded(d, n);
  }

  /** Sets only grow as draws come in, so if the set was still short of `t`
      one draw before `u`, it was short of `t` after every earlier draw. */
  lemma {:induction false} SizesBelow(s: seq<int>, u: nat, t: int)
    requires u <= |s|
    requires u > 0 ==> |Dedup(s[..u - 1])| < t
    ensures forall j :: 0 <= j < u ==> |Dedup(s[..j])| < t
  {
    forall j | 0 <= j < u
      ensures |Dedup(s[..j])| < t
    {
      DedupPrefix(s[..u - 1], j);
      assert s[..u - 1][..j] == s[..j];
    }
  }

  /** When the set first reaches `t` elements after `u` draws: it was short
      before every earlier draw, it keeps the properties of the full set, and
      the full set holds at least `t` indices. */
  lemma {:induction false} ExitFacts(s: seq<int>, u: nat, t: int, n: nat)
    requires u <= |s|
    requires |Dedup(s[..u])| == t
    requires u > 0 ==> |Dedup(s[..u - 1])| < t
    requires NoDup(Dedup(s)) && forall k :: 0 <= k < |Dedup(s)| ==> 0 <= Dedup(s)[k] < n
    ensures forall j :: 0 <= j < u ==> |Dedup(s[..j])| < t
    ensures NoDup(Dedup(s[..u])) && forall k :: 0 <= k < |Dedup(s[..u])| ==> 0 <= Dedup(s[..u])[k] < n
    ensures |Dedup(s)| >= t
  {
    DedupPrefix(s, u);
    SizesBelow(s, u, t);
    var p, d := Dedup(s[..u]), Dedup(s);
    assert forall k :: 0 <= k < |p| ==> p[k] == d[k];
  }

  /** The selection loop, run on the indices `s`, exits after exactly `u`
      draws: the set reaches `t` elements at draw `u` and not before. */
  predicate FirstFill(s: seq<int>, t: nat, u: nat) {
    && u <= |s|
    && |Dedup(s[..u])| == t
    && forall j :: 0 <= j < u ==> |Dedup(s[..j])| < t
  }

  /** There is at most one draw at which the loop exits. */
  lemma {:induction false} FirstFillUnique(s: seq<int>, t: nat, u: nat)
    requires FirstFill(s, t, u)
    ensures forall v: nat :: FirstFill(s, t, v) ==> v == u
  {
  }

  /** If the loop exits at some draw, all the draws together fill the set. */
  lemma {:induction false} FirstFillFull(s: seq<int>, t: nat)
    ensures forall u: nat :: FirstFill(s, t, u) ==> |Dedup(s)| >= t
  {
    forall u: nat | FirstFill(s, t, u)
      ensures |Dedup(s)| >= t
    {
      DedupPrefix(s, u);
    }
  }

  /** One turn of the selection loop: the set after one more draw, and the
      set after that draw being short of `t` when the loop goes on. */
  lemma {:induction false} SelectStep(picks: seq<int>, used: nat, indices: seq<int>)
    requires used < |picks| && indices == Dedup(picks[..used])
    ensures Dedup(picks[..used + 1]) ==
              if picks[used] in indices then indices else indices + [picks[used]]
    ensures picks[..used + 1][..used] == picks[..used]
  {
    assert picks[..used + 1] == picks[..used] + [picks[used]];
    DedupSnoc(picks[..used], picks[used]);
  }

  /** Outcome of the selection loop for a given oracle. */
  datatype Selection =
    | Selected(indices: seq<int>, used: nat)   // the loop exited after `used` draws
    | SelectionPending                         // the draws ran out first

  /** The `while (indices.size < targetCount)` loop: draw an index, add it to
      the set, until the set holds `targetCount` indices. */
  method FillIndexSet(n: nat, targetCount: nat, draws: seq<real>) returns (sel: Selection)
    requires n > 0
    requires AllDraws(draws)
    ensures sel.Selected? ==>
              && sel.used <= |draws|
              && FirstFill(Drawn(draws, n), targetCount, sel.used)
              && sel.indices == Dedup(Drawn(draws, n)[..sel.used])
    ensures sel.Selected? ==>
              NoDup(sel.indices) && forall k :: 0 <= k < |sel.indices| ==> 0 <= sel.indices[k] < n
    ensures sel.SelectionPending? <==> |Dedup(Drawn(draws, n))| < targetCount
    ensures n < targetCount ==> sel.SelectionPending?
  {
    ghost var picks := Drawn(draws, n);
    var indices: seq<int> := [];
    var used: nat := 0;
    DedupDrawnInRange(draws, n);
    while |indices| < targetCount
      invariant used <= |draws|
      invariant indices == Dedup(picks[..used])
      invariant |indices| <= targetCount
      invariant used > 0 ==> |Dedup(picks[..used - 1])| < targetCount
      decreases |draws| - used
    {
      if used == |draws| {
        assert picks[..used] == picks;
        return SelectionPending;
      }
      var i := DrawIndex(draws[used], n);
      SelectStep(picks, used, indices);
      if i !in indices {
        indices := indices + [i];
      }
      used := used + 1;
    }
    ExitFacts(picks, used, targetCount, n);
    sel := Selected(indices, used);
  }

  /** Compute `targetCount` from the number of words, then run the selection
      loop with it. */
  method SelectIndices(n: nat, draws: seq<real>) returns (sel: Selection)
    requires n > 0
    requires AllDraws(draws)
    ensures sel.Selected? ==>
              && sel.used <= |draws|
              && FirstFill(Drawn(draws, n), TargetCount(n), sel.used)
              && sel.indices == Dedup(Drawn(draws, n)[..sel.used])
    ensures sel.Selected? ==>
              NoDup(sel.indices) && forall k :: 0 <= k < |sel.indices| ==> 0 <= sel.indices[k] < n
    ensures sel.SelectionPending? <==> |Dedup(Drawn(draws, n))| < TargetCount(n)
    ensures n < TargetCount(n) ==> sel.SelectionPending?
  {
    var targetCount := TargetCount(n);
    sel := FillIndexSet(n, targetCount, draws);
  }

  /** The draw k / n picks index k among n items. */
  lemma {:induction false} WitnessDraw(k: nat, n: nat)
    requires k < n
    ensures IsDraw(k as real / n as real)
    ensures DrawIndex(k as real / n as real, n) == k
  {
    assert (k as real / n as real) * n as real == k as real;
  }

  /** With six words or more some oracle lets the loop exit: the loop's
      termination hinges on `n >= targetCount` and nothing else. */
  lemma {:induction false} SelectionCanFinish(n: nat)
    requires n >= TargetCount(n)
    ensures exists draws :: AllDraws(draws) && |Dedup(Drawn(draws, n))| >= TargetCount(n)
  {
    var draws := seq(n, k requires 0 <= k < n => k as real / n as real);
    forall k | 0 <= k < n
      ensures IsDraw(draws[k]) && Drawn(draws, n)[k] == k
    {
      WitnessDraw(k, n);
    }
    DedupOfDistinct(Drawn(draws, n));
  }

  /** `Array.from(indices).map((i) => words[i])`. */
  function Chosen<T>(words: seq<T>, indices: seq<int>): (c: seq<T>)
    requires forall k :: 0 <= k < |indices| ==> 0 <= indices[k] < |words|
  {
    seq(|indices|, k requires 0 <= k < |indices| => words[indices[k]])
  }

  /** Distinct indices into distinct words pick distinct words. */
  lemma {:induction false} ChosenDistinct<T>(words: seq<T>, indices: seq<int>)
    requires forall k :: 0 <= k < |indices| ==> 0 <= indices[k] < |words|
    requires NoDup(words) && NoDup(indices)
    ensures |Chosen(words, indices)| == |indices|
    ensures NoDup(Chosen(words, indices))
    ensures forall k :: 0 <= k < |indices| ==> Chosen(words, indices)[k] in words
  {
  }

  /** A tween value: a number or a CSS color. */
  datatype Value = Num(x: real) | Color(css: string)

  /** One entry of the `effects` table: the `from` and `to` tween values. */
  datatype Preset = Preset(from: map<string, Value>, to: map<string, Value>)

  /** The four effects: rise in, rotate in, scale in, and slide with a color
      change. Each animates the same properties it starts from. */
  function Effects(): (fx: seq<Preset>)
    ensures |fx| == 4
    ensures forall k :: 0 <= k < |fx| ==> fx[k].from.Keys == fx[k].to.Keys
  {
    [ Preset(map["yPercent" := Num(120.0), "opacity" := Num(0.0)],
             map["yPercent" := Num(0.0), "opacity" := Num(1.0)]),
      Preset(map["rotation" := Num(-10.0), "opacity" := Num(0.0)],
             map["rotation" := Num(0.0), "opacity" := Num(1.0)]),
      Preset(map["scale" := Num(0.85), "opacity" := Num(0.0)],
             map["scale" := Num(1.0), "opacity" := Num(1.0)]),
      Preset(map["y" := Num(16.0), "color" := Color("#6b7280")],
             map["y" := Num(0.0), "color" := Color("#111827")]) ]
  }

  /** `Math.floor(Math.random() * effects.length)`. */
  function PresetIndex(r: real): (k: int)
    requires IsDraw(r)
    ensures 0 <= k < |Effects()|
  {
    DrawIndexInRange(r, |Effects()|);
    DrawIndex(r, |Effects()|)
  }

  /** One `gsap.fromTo` registration: a word and the preset it plays. */
  datatype Registration<T> = Registration(target: T, preset: Preset)

  /** `chosen.forEach(...)`: each word, in order, draws its preset from the
      oracle, starting at draw `start`; `None` when the draws run out. */
  method AssignPresets<T>(chosen: seq<T>, draws: seq<real>, start: nat)
    returns (registrations: Option<seq<Registration<T>>>)
    requires AllDraws(draws) && start <= |draws|
    ensures registrations.Some? <==> start + |chosen| <= |draws|
    ensures registrations.Some? ==>
              && |registrations.value| == |chosen|
              && forall k :: 0 <= k < |chosen| ==>
                   registrations.value[k] == Registration(chosen[k], Effects()[PresetIndex(draws[start + k])])
  {
    var done: seq<Registration<T>> := [];
    for k := 0 to |chosen|
      invariant |done| == k
      invariant start + k <= |draws|
      invariant forall j :: 0 <= j < k ==>
                  done[j] == Registration(chosen[j], Effects()[PresetIndex(draws[start + j])])
    {
      if start + k == |draws| {
        return None;
      }
      var effects := Effects();
      var fx := effects[PresetIndex(draws[start + k])];
      done := done + [Registration(chosen[k], fx)];
    }
    registrations := Some(done);
  }

  /** Outcome of the random-effects block for one oracle. */
  datatype Outcome<T> =
    | NoWords                                  // `words.length > 0` fails: nothing happens
    | Pending(inSelection: bool)               // the draws ran out, in the selection loop or after it
    | Animated(indices: seq<int>, used: nat, registrations: seq<Registration<T>>)

  /** The block that picks the words of a section and gives each a random
      preset, once `targetCount` is known: selection loop, `chosen`, then
      `chosen.forEach` drawing one preset per word. */
  method AnimateWithTarget<T(==)>(words: seq<T>, targetCount: nat, draws: seq<real>)
    returns (out: Outcome<T>)
    requires |words| > 0
    requires AllDraws(draws)
    ensures !out.NoWords?
    ensures out == Pending(true) <==> |Dedup(Drawn(draws, |words|))| < targetCount
    ensures |words| < targetCount ==> out == Pending(true)
    ensures out == Pending(false) <==>
              exists u: nat :: FirstFill(Drawn(draws, |words|), targetCount, u) &&
                               u + targetCount > |draws|
    ensures out.Animated? ==>
              && out.used + |out.indices| <= |draws|
              && FirstFill(Drawn(draws, |words|), targetCount, out.used)
              && out.indices == Dedup(Drawn(draws, |words|)[..out.used])
              && |out.registrations| == |out.indices|
              && NoDup(out.indices)
              && forall k :: 0 <= k < |out.indices| ==>
                   && 0 <= out.indices[k] < |words|
                   && out.registrations[k] ==
                        Registration(words[out.indices[k]], Effects()[PresetIndex(draws[out.used + k])])
    ensures out.Animated? && NoDup(words) ==>
              forall i, j :: 0 <= i < j < |out.registrations| ==>
                out.registrations[i].target != out.registrations[j].target
  {
    ghost var picks := Drawn(draws, |words|);
    var sel := FillIndexSet(|words|, targetCount, draws);
    if sel.SelectionPending? {
      FirstFillFull(picks, targetCount);
      return Pending(true);
    }
    FirstFillUnique(picks, targetCount, sel.used);
    var chosen := Chosen(words, sel.indices);
    var registrations := AssignPresets(chosen, draws, sel.used);
    if registrations.None? {
      return Pending(false);
    }
    if NoDup(words) {
      ChosenDistinct(words, sel.indices);
    }
    out := Animated(sel.indices, sel.used, registrations.value);
  }

  /** The whole random-effects block: nothing happens without words;
      otherwise `targetCount` is computed and the words are picked and
      animated with it. */
  method AnimateRandomWords<T(==)>(words: seq<T>, draws: seq<real>) returns (out: Outcome<T>)
    requires AllDraws(draws)
    ensures out.NoWords? <==> |words| == 0
    ensures out == Pending(true) <==>
              |words| > 0 && |Dedup(Drawn(draws, |words|))| < TargetCount(|words|)
    ensures 0 < |words| < MinCount ==> out == Pending(true)
    ensures out == Pending(false) <==>
              && |words| > 0
              && exists u: nat :: FirstFill(Drawn(draws, |words|), TargetCount(|words|), u) &&
                                  u + TargetCount(|words|) > |draws|
    ensures out.Animated? ==>
              && out.used + |out.indices| <= |draws|
              && FirstFill(Drawn(draws, |words|), TargetCount(|words|), out.used)
              && out.indices == Dedup(Drawn(draws, |words|)[..out.used])
              && |out.registrations| == |out.indices|
              && NoDup(out.indices)
              && forall k :: 0 <= k < |out.indices| ==>
                   && 0 <= out.indices[k] < |words|
                   && out.registrations[k] ==
                        Registration(words[out.indices[k]], Effects()[PresetIndex(draws[out.used + k])])
    ensures out.Animated? && NoDup(words) ==>
              forall i, j :: 0 <= i < j < |out.registrations| ==>
                out.registrations[i].target != out.registrations[j].target
  {
    if |words| == 0 {
      return NoWords;
    }
    TooFewWords(|words|);
    var targetCount := TargetCount(|words|);
    out := AnimateWithTarget(words, targetCount, draws);
  }
}

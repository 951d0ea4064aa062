/** Small per-element layout rules of the testimonial section: the class
    string of a testimonial figure and the initial horizontal offset of each
    figure. */
module Layout {

  /** The fixed classes every testimonial figure carries. */
  const FigureBase: string :=
    "relative rounded-lg border border-ourora-purple-light/25 bg-ourora-cream/95 p-8 text-ourora-purple-dark"

  /** `parts.filter(Boolean)`: drops the empty strings, keeps the order. */
  function Truthy(parts: seq<string>): (r: seq<string>)
    ensures forall k :: 0 <= k < |r| ==> r[k] != ""
    ensures forall x :: x in r <==> x in parts && x != ""
    ensures (forall k :: 0 <= k < |parts| ==> parts[k] != "") ==> r == parts
    ensures |r| <= |parts|
  {
    if parts == [] then []
    else if parts[0] == "" then Truthy(parts[1..])
    else [parts[0]] + Truthy(parts[1..])
  }

  /** Filtering keeps the order: filtering a concatenation is concatenating
      the filtered halves, and a single part survives iff it is non-empty. */
  lemma {:induction false} TruthyAppend(a: seq<string>, b: seq<string>)
    ensures Truthy(a + b) == Truthy(a) + Truthy(b)
    ensures |a| == 1 ==> Truthy(a) == if a[0] == "" then [] else a
  {
    if a != [] {
      assert (a + b)[1..] == a[1..] + b;
      TruthyAppend(a[1..], b);
    } else {
      assert a + b == b;
    }
    if |a| == 1 {
      assert a[1..] == [];
      assert Truthy(a[1..]) == [];
      assert a == [a[0]];
    }
  }

  /** `parts.join(sep)`. */
  function Join(parts: seq<string>, sep: string): string {
    if parts == [] then ""
    else if |parts| == 1 then parts[0]
    else parts[0] + sep + Join(parts[1..], sep)
  }

  /** `[base, className].filter(Boolean).join(" ")`. */
  function JoinClasses(base: string, className: string): (cls: string)
    ensures base == "" ==> cls == className
    ensures base != "" && className == "" ==> cls == base
    ensures base != "" && className != "" ==> cls == base + " " + className
  {
    var parts := Truthy([base, className]);
    assert [base, className][1..] == [className] && [className][1..] == [];
    assert Truthy([className]) == if className == "" then [] else [className];
    assert [base] + [className] == [base, className];
    assert Join([base, className], " ") == base + " " + Join([className], " ");
    Join(parts, " ")
  }

  /** The class string of a `TestimonialFigure`: the base classes alone when
      no extra class is given, otherwise the base, a space and the extra. */
  function TestimonialClass(className: string): (cls: string)
    ensures className == "" ==> cls == FigureBase
    ensures className != "" ==> cls == FigureBase + " " + className
    ensures |cls| >= |FigureBase|
  {
    JoinClasses(FigureBase, className)
  }

  /** The initial x offset, in pixels, of the figure at position `i`. */
  function InitialX(i: nat): int {
    if i % 2 == 0 then -48 else 48
  }

  /** Neighbouring figures start on opposite sides, 48 pixels out. */
  lemma OffsetsAlternate(i: nat)
    ensures InitialX(i) == -48 <==> i % 2 == 0
    ensures InitialX(i + 1) == -InitialX(i)
    ensures InitialX(i + 2) == InitialX(i)
  {
  }

  /** `figures.forEach((fig, i) => gsap.set(fig, { x: ... }))`, with `x[i]`
      standing for the x offset of figure `i`: every figure gets its offset
      and iteration `i` writes figure `i` only. */
  method SetInitialOffsets(x: array<int>)
    modifies x
    ensures forall i :: 0 <= i < x.Length ==> x[i] == InitialX(i)
  {
    for i := 0 to x.Length
      invariant forall k :: 0 <= k < i ==> x[k] == InitialX(k)
      invariant forall k :: i <= k < x.Length ==> x[k] == old(x[k])
    {
      x[i] := if i % 2 == 0 then -48 else 48;
    }
  }
}

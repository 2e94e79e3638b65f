/** The directory pass: every drawing is corrected in turn and the corrected
    counts are added up. A drawing is given by its lines and circles; loading
    and saving files is not part of this model. */
module Batch {
  import opened Geometry
  import opened Holes
  import opened HoleProperties

  /** The entities of one drawing the pass looks at. */
  datatype Document = Document(lines: seq<Segment>, circles: seq<Hole>)

  /** The drawing as it is after the pass: the lines are untouched. */
  function Repaired(doc: Document, cfg: Config, dryRun: bool, sqrt: real -> real): Document
    requires IsSqrt(sqrt)
  {
    Document(doc.lines, RepositionedAll(doc.circles, doc.lines, cfg, dryRun, sqrt))
  }

  /** The number of holes the pass reports as corrected in one drawing. */
  function FileCorrected(doc: Document, cfg: Config, sqrt: real -> real): (n: nat)
    requires IsSqrt(sqrt)
    ensures n <= |doc.circles|
    ensures |doc.circles| == 0 ==> n == 0
  {
    EveryCircleCountedOnce(doc.circles, doc.lines, cfg, sqrt);
    TallyOf(doc.circles, doc.lines, cfg, sqrt).corrected
  }

  /** One drawing: copy the circles into a buffer, correct them in place,
      and decide whether the drawing is to be saved. */
  method FixDocument(doc: Document, cfg: Config, dryRun: bool, sqrt: real -> real)
    returns (corrected: nat, fixed: Document, save: bool)
    requires IsSqrt(sqrt)
    ensures corrected == FileCorrected(doc, cfg, sqrt)
    ensures fixed == Repaired(doc, cfg, dryRun, sqrt)
    ensures save <==> !dryRun && corrected > 0
  {
    var holes := new Hole[|doc.circles|](i requires 0 <= i < |doc.circles| => doc.circles[i]);
    assert holes[..] == doc.circles;
    var tally;
    corrected, tally := FixHoles(holes, doc.lines, cfg, dryRun, sqrt);
    forall k | 0 <= k < holes.Length
      ensures holes[k] == RepositionedAll(doc.circles, doc.lines, cfg, dryRun, sqrt)[k]
    {
      RepositionedAt(doc.circles, doc.lines, cfg, dryRun, sqrt, k);
    }
    fixed := Document(doc.lines, holes[..]);
    save := !dryRun && corrected > 0;
  }

  /** The sum of the corrected counts of the drawings. */
  function TotalCorrected(docs: seq<Document>, cfg: Config, sqrt: real -> real): nat
    requires IsSqrt(sqrt)
    decreases |docs|
  {
    if |docs| == 0 then 0
    else TotalCorrected(docs[..|docs| - 1], cfg, sqrt) + FileCorrected(docs[|docs| - 1], cfg, sqrt)
  }

  /** What is written for one drawing: the repaired drawing when it had
      corrections and this is not a dry run, nothing otherwise. */
  function Output(doc: Document, cfg: Config, dryRun: bool, sqrt: real -> real): Option<Document>
    requires IsSqrt(sqrt)
  {
    if !dryRun && FileCorrected(doc, cfg, sqrt) > 0 then Some(Repaired(doc, cfg, dryRun, sqrt)) else None
  }

  /** What is written for each drawing of `docs`, in order; `OutputAt`
      says which entry is which. */
  function Outputs(docs: seq<Document>, cfg: Config, dryRun: bool, sqrt: real -> real): (r: seq<Option<Document>>)
    requires IsSqrt(sqrt)
    ensures |r| == |docs|
    decreases |docs|
  {
    if |docs| == 0 then []
    else Outputs(docs[..|docs| - 1], cfg, dryRun, sqrt) + [Output(docs[|docs| - 1], cfg, dryRun, sqrt)]
  }

  /** Entry `k` of the outputs is what is written for drawing `k`. */
  lemma {:induction false} OutputAt(docs: seq<Document>, cfg: Config, dryRun: bool, sqrt: real -> real, k: nat)
    requires IsSqrt(sqrt) && k < |docs|
    ensures Outputs(docs, cfg, dryRun, sqrt)[k] == Output(docs[k], cfg, dryRun, sqrt)
    decreases |docs|
  {
    if k < |docs| - 1 {
      OutputAt(docs[..|docs| - 1], cfg, dryRun, sqrt, k);
    }
  }

  /** The directory pass over the drawings in the order given. Returns the
      total of corrected holes it reports and what it writes per drawing. */
  method ProcessDirectory(docs: seq<Document>, cfg: Config, dryRun: bool, sqrt: real -> real)
    returns (total: nat, outputs: seq<Option<Document>>)
    requires IsSqrt(sqrt)
    ensures total == TotalCorrected(docs, cfg, sqrt)
    ensures |outputs| == |docs|
    ensures forall i :: 0 <= i < |docs| ==> outputs[i] == Output(docs[i], cfg, dryRun, sqrt)
  {
    total := 0;
    outputs := [];
    for i := 0 to |docs|
      invariant total == TotalCorrected(docs[..i], cfg, sqrt)
      invariant outputs == Outputs(docs[..i], cfg, dryRun, sqrt)
    {
      assert docs[..i + 1][..i] == docs[..i];
      assert docs[..i + 1][i] == docs[i];
      var holes, fixed, save := FixDocument(docs[i], cfg, dryRun, sqrt);
      total := total + holes;
      outputs := outputs + [if save then Some(fixed) else None];
    }
    assert docs[..|docs|] == docs;
    forall k | 0 <= k < |docs|
      ensures outputs[k] == Output(docs[k], cfg, dryRun, sqrt)
    {
      OutputAt(docs, cfg, dryRun, sqrt, k);
    }
  }

  /** Splitting the drawings into two runs splits the total. */
  lemma {:induction false} TotalCorrectedAppend(a: seq<Document>, b: seq<Document>, cfg: Config, sqrt: real -> real)
    requires IsSqrt(sqrt)
    ensures TotalCorrected(a + b, cfg, sqrt) == TotalCorrected(a, cfg, sqrt) + TotalCorrected(b, cfg, sqrt)
    decreases |b|
  {
    if |b| == 0 {
      assert a + b == a;
    } else {
      var n := |b| - 1;
      assert (a + b)[..|a + b| - 1] == a + b[..n];
      assert (a + b)[|a + b| - 1] == b[n];
      TotalCorrectedAppend(a, b[..n], cfg, sqrt);
    }
  }

  /** Taking one drawing out of the list takes its count out of the total. */
  lemma TotalCorrectedRemove(b: seq<Document>, j: nat, cfg: Config, sqrt: real -> real)
    requires IsSqrt(sqrt) && j < |b|
    ensures TotalCorrected(b, cfg, sqrt) == TotalCorrected(b[..j] + b[j + 1..], cfg, sqrt) + FileCorrected(b[j], cfg, sqrt)
  {
    assert b == b[..j] + [b[j]] + b[j + 1..];
    TotalCorrectedAppend(b[..j] + [b[j]], b[j + 1..], cfg, sqrt);
    TotalCorrectedAppend(b[..j], [b[j]], cfg, sqrt);
    TotalCorrectedAppend(b[..j], b[j + 1..], cfg, sqrt);
    assert [b[j]][..0] == [];
  }

  /** Two lists with the same elements stay so when the last element of the
      first is taken out of both. */
  lemma MultisetRemove<T>(a: seq<T>, b: seq<T>, j: nat)
    requires multiset(a) == multiset(b) && |a| > 0 && j < |b| && b[j] == a[|a| - 1]
    ensures multiset(a[..|a| - 1]) == multiset(b[..j] + b[j + 1..])
  {
    var x := a[|a| - 1];
    assert a == a[..|a| - 1] + [x];
    assert b == b[..j] + [x] + b[j + 1..];
    assert multiset(a[..|a| - 1]) == multiset(a) - multiset{x};
    assert multiset(b[..j] + b[j + 1..]) == multiset(b) - multiset{x};
  }

  /** The total does not depend on the order the drawings are taken in. */
  lemma {:induction false} TotalCorrectedPermutation(a: seq<Document>, b: seq<Document>, cfg: Config, sqrt: real -> real)
    requires IsSqrt(sqrt) && multiset(a) == multiset(b)
    ensures TotalCorrected(a, cfg, sqrt) == TotalCorrected(b, cfg, sqrt)
    decreases |a|
  {
    if |a| == 0 {
      assert |b| == |multiset(b)| == 0;
    } else {
      var n := |a| - 1;
      assert a[n] in multiset(b);
      var j :| 0 <= j < |b| && b[j] == a[n];
      MultisetRemove(a, b, j);
      TotalCorrectedPermutation(a[..n], b[..j] + b[j + 1..], cfg, sqrt);
      TotalCorrectedRemove(b, j, cfg, sqrt);
    }
  }

  /** No drawing reports more corrected holes than it has circles. */
  lemma {:induction false} TotalCorrectedBounded(docs: seq<Document>, cfg: Config, sqrt: real -> real)
    requires IsSqrt(sqrt)
    ensures TotalCorrected(docs, cfg, sqrt) <= CircleCount(docs)
    decreases |docs|
  {
    if |docs| > 0 {
      TotalCorrectedBounded(docs[..|docs| - 1], cfg, sqrt);
    }
  }

  /** The number of circles in all the drawings. */
  function CircleCount(docs: seq<Document>): nat
    decreases |docs|
  {
    if |docs| == 0 then 0 else CircleCount(docs[..|docs| - 1]) + |docs[|docs| - 1].circles|
  }
}

/**
 The `html` template sequencer (index.js). Called as a tagged template, it gets
 the template's static fragments `strings` and its dynamic `values` and yields,
 for each value in order, the fragment before it and the value's chunk, then
 the last fragment.

 The generator is lazy and has no suspension point other than its `yield`s, so
 its output is the finite sequence of everything it yields. `strings` is taken
 as an immutable sequence, as the frozen array of a tagged template is. The
 code does not check `strings.length == values.length + 1`; JavaScript reads
 outside an array as `undefined`, so Html is defined for every pair of lengths
 and the lemmas below say what happens in the well-formed case and outside it.
 */
module Template {
  import opened JsValues
  import opened Interleaving

  /** The array read `strings[k]`: `undefined` outside the array. */
  function Fragment(strings: seq<string>, k: int): (c: Chunk)
    ensures c.Missing? <==> !(0 <= k < |strings|)
    ensures c.Text? ==> c.text == strings[k]
  {
    if 0 <= k < |strings| then Text(strings[k]) else Missing
  }

  /** What output position `j` holds while the loop runs, given the chunks the
      values yield: fragment `j/2` at an even position, chunk `j/2` at an odd one. */
  function Slot(strings: seq<string>, chunks: seq<Chunk>, j: nat): Chunk
    requires j / 2 < |chunks|
  {
    if j % 2 == 0 then Fragment(strings, j / 2) else chunks[j / 2]
  }

  /** Everything the first `k` iterations of the `for` loop yield, given the
      chunks the values yield. */
  function Emitted(strings: seq<string>, chunks: seq<Chunk>, k: nat): (out: seq<Chunk>)
    requires k <= |chunks|
    ensures |out| == 2 * k
    decreases k
  {
    if k == 0 then []
    else Emitted(strings, chunks, k - 1) + [Fragment(strings, k - 1), chunks[k - 1]]
  }

  /** After `k` iterations, position `j` holds fragment `j/2` when `j` is even
      and chunk `j/2` when it is odd. */
  lemma {:induction false} EmittedAt(strings: seq<string>, chunks: seq<Chunk>, k: nat, j: nat)
    requires k <= |chunks| && j < 2 * k
    ensures Emitted(strings, chunks, k)[j] == Slot(strings, chunks, j)
    decreases k
  {
    if j < 2 * k - 2 {
      EmittedAt(strings, chunks, k - 1, j);
    }
  }

  /** EmittedAt for every position at once. */
  lemma EmittedSlots(strings: seq<string>, chunks: seq<Chunk>, k: nat)
    requires k <= |chunks|
    ensures forall j :: 0 <= j < 2 * k ==> Emitted(strings, chunks, k)[j] == Slot(strings, chunks, j)
  {
    forall j | 0 <= j < 2 * k
      ensures Emitted(strings, chunks, k)[j] == Slot(strings, chunks, j)
    {
      EmittedAt(strings, chunks, k, j);
    }
  }

  /** The whole output of `html(strings, ...values)`. */
  function Html(strings: seq<string>, values: seq<Value>): (out: seq<Chunk>)
    ensures |out| == 2 * |values| + 1
    ensures forall j :: 0 <= j < 2 * |values| ==> out[j] == Slot(strings, Chunks(values), j)
    ensures out[2 * |values|] == Fragment(strings, |strings| - 1)
  {
    var chunks := Chunks(values);
    EmittedSlots(strings, chunks, |values|);
    Emitted(strings, chunks, |values|) + [Fragment(strings, |strings| - 1)]
  }

  /** The shape a tagged template always has: one more fragment than values. */
  predicate WellFormed(strings: seq<string>, values: seq<Value>) {
    |strings| == |values| + 1
  }

  /** The generator as written: a `for` loop over the values with the
      `switch (typeof value)`, then the last fragment. */
  method Generate(strings: seq<string>, values: seq<Value>) returns (out: seq<Chunk>)
    ensures out == Html(strings, values)
  {
    out := [];
    var i := 0;
    var max := |values|;
    while i < max
      invariant 0 <= i <= max
      invariant out == Emitted(strings, Chunks(values), i)
    {
      out := out + [Fragment(strings, i)];
      var value := values[i];
      var chunk: Chunk;
      match value {
        case Sym(d) =>
          chunk := match d case Some(t) => Text(t) case None => Missing;
        case _ =>
          chunk := Text(StringOf(value));
      }
      assert chunk == Resolve(value);
      ChunksAt(values, i);
      out := out + [chunk];
      i := i + 1;
    }
    out := out + [Fragment(strings, |strings| - 1)];
  }

  // ---------------------------------------------------------------------------
  // Positions of the output

  /** Fragment `i` is yielded at position `2i`, before value `i`. */
  lemma FragmentAt(strings: seq<string>, values: seq<Value>, i: nat)
    requires i < |values|
    ensures Html(strings, values)[2 * i] == Fragment(strings, i)
  {
    assert (2 * i) % 2 == 0 && (2 * i) / 2 == i;
    assert Html(strings, values)[2 * i] == Slot(strings, Chunks(values), 2 * i);
  }

  /** Value `i` is yielded at position `2i + 1`, so values keep their order. */
  lemma ValueAt(strings: seq<string>, values: seq<Value>, i: nat)
    requires i < |values|
    ensures Html(strings, values)[2 * i + 1] == Resolve(values[i])
  {
    var j := 2 * i + 1;
    assert j % 2 == 1 && j / 2 == i;
    assert Html(strings, values)[j] == Slot(strings, Chunks(values), j);
    ChunksAt(values, i);
  }

  /** With no values the generator yields only the last fragment. */
  lemma NoValues(strings: seq<string>)
    ensures Html(strings, []) == [Fragment(strings, |strings| - 1)]
    ensures WellFormed(strings, []) ==> Html(strings, []) == [Text(strings[0])]
  {
  }

  // ---------------------------------------------------------------------------
  // Well-formed templates

  /** In a well-formed template every fragment is yielded unchanged at its
      even position, the last one after all values. */
  lemma WellFormedFragments(strings: seq<string>, values: seq<Value>)
    requires WellFormed(strings, values)
    ensures forall i :: 0 <= i < |strings| ==> Html(strings, values)[2 * i] == Text(strings[i])
  {
    forall i | 0 <= i < |values|
      ensures Html(strings, values)[2 * i] == Text(strings[i])
    {
      FragmentAt(strings, values, i);
    }
  }

  /** The loop over any chunk sequence, followed by the last fragment, is the
      interleaving of the fragments with those chunks. */
  lemma SequenceIsInterleaving(strings: seq<string>, chunks: seq<Chunk>)
    requires |strings| == |chunks| + 1
    ensures Emitted(strings, chunks, |chunks|) + [Fragment(strings, |strings| - 1)]
            == Interleave(Texts(strings), chunks)
  {
    var out := Emitted(strings, chunks, |chunks|) + [Fragment(strings, |strings| - 1)];
    var ref := Interleave(Texts(strings), chunks);
    forall j | 0 <= j < |out|
      ensures out[j] == ref[j]
    {
      InterleaveAt(Texts(strings), chunks, j);
      if j < 2 * |chunks| {
        EmittedAt(strings, chunks, |chunks|, j);
        assert out[j] == Slot(strings, chunks, j);
      } else {
        assert j / 2 == |strings| - 1;
      }
    }
  }

  /** In a well-formed template the output is exactly the fragments
      interleaved with the values' chunks. */
  lemma HtmlIsInterleaving(strings: seq<string>, values: seq<Value>)
    requires WellFormed(strings, values)
    ensures Html(strings, values) == Interleave(Texts(strings), Chunks(values))
  {
    SequenceIsInterleaving(strings, Chunks(values));
  }

  /** The fragments, each as yielded. */
  function Texts(strings: seq<string>): (r: seq<Chunk>)
    ensures |r| == |strings|
    ensures forall i :: 0 <= i < |r| ==> r[i] == Text(strings[i])
  {
    seq(|strings|, i requires 0 <= i < |strings| => Text(strings[i]))
  }

  /** The values' chunks, in order. */
  function Chunks(values: seq<Value>): (r: seq<Chunk>)
    ensures |r| == |values|
    decreases |values|
  {
    if |values| == 0 then [] else [Resolve(values[0])] + Chunks(values[1..])
  }

  /** Chunk `i` is the one value `i` yields. */
  lemma {:induction false} ChunksAt(values: seq<Value>, i: nat)
    requires i < |values|
    ensures Chunks(values)[i] == Resolve(values[i])
    decreases i
  {
    if i > 0 {
      ChunksAt(values[1..], i - 1);
    }
  }

  /** Splitting the output of a well-formed template at even and odd
      positions recovers the fragments and the values' chunks. */
  lemma SplitRecoversParts(strings: seq<string>, values: seq<Value>)
    requires WellFormed(strings, values)
    ensures Evens(Html(strings, values)) == Texts(strings)
    ensures Odds(Html(strings, values)) == Chunks(values)
  {
    HtmlIsInterleaving(strings, values);
    EvensOfInterleave(Texts(strings), Chunks(values));
    OddsOfInterleave(Texts(strings), Chunks(values));
  }

  /** In a well-formed template a chunk is `undefined` exactly where a value
      is a symbol without a description. */
  lemma WellFormedMissing(strings: seq<string>, values: seq<Value>)
    requires WellFormed(strings, values)
    ensures forall j :: 0 <= j < |Html(strings, values)| ==>
              (Html(strings, values)[j].Missing? <==> j % 2 == 1 && values[j / 2] == Sym(None))
  {
    forall j | 0 <= j < |Html(strings, values)|
      ensures Html(strings, values)[j].Missing? <==> j % 2 == 1 && values[j / 2] == Sym(None)
    {
      if j % 2 == 1 {
        ValueAt(strings, values, j / 2);
      } else if j < 2 * |values| {
        FragmentAt(strings, values, j / 2);
      }
    }
  }

  // ---------------------------------------------------------------------------
  // Templates whose lengths do not match

  /** Only fragments `0 .. |values|-1` and the last one are ever read. */
  lemma OnlyReadFragments(strings: seq<string>, strings': seq<string>, values: seq<Value>)
    requires forall i :: 0 <= i < |values| ==> Fragment(strings, i) == Fragment(strings', i)
    requires Fragment(strings, |strings| - 1) == Fragment(strings', |strings'| - 1)
    ensures Html(strings, values) == Html(strings', values)
  {
  }

  /** Extra fragments between the last value and the last fragment are dropped. */
  lemma ExtraFragmentsDropped(strings: seq<string>, values: seq<Value>)
    requires |strings| > |values| + 1
    ensures Html(strings, values) == Html(strings[..|values|] + [strings[|strings| - 1]], values)
  {
  }

  /** Some fragment position yields `undefined` exactly when there are fewer
      fragments than values, or none at all. */
  lemma MissingFragment(strings: seq<string>, values: seq<Value>)
    ensures (exists j :: 0 <= j < |Html(strings, values)| && j % 2 == 0 && Html(strings, values)[j].Missing?)
            <==> (|strings| < |values| || |strings| == 0)
  {
    var out := Html(strings, values);
    if |strings| < |values| {
      FragmentAt(strings, values, |strings|);
      assert out[2 * |strings|].Missing?;
    } else if |strings| == 0 {
      assert out[2 * |values|].Missing?;
    } else {
      forall j | 0 <= j < |out| && j % 2 == 0
        ensures out[j].Text?
      {
        if j < 2 * |values| {
          FragmentAt(strings, values, j / 2);
          assert 2 * (j / 2) == j;
        }
      }
    }
  }

  // ---------------------------------------------------------------------------
  // Concrete templates

  /** A string value is yielded verbatim: markup in it is not escaped. */
  lemma StringNotEscaped()
    ensures Html(["<p>", "</p>"], [Str("<b>hi</b>")]) == [Text("<p>"), Text("<b>hi</b>"), Text("</p>")]
  {
  }

  /** Scalars yield their JavaScript `String()` forms between the fragments. */
  lemma ScalarForms()
    ensures Html(["", " ", " ", " ", " ", ""], [Null, Undefined, Bool(true), Bool(false), Num(0)])
            == [Text(""), Text("null"), Text(" "), Text("undefined"), Text(" "), Text("true"),
                Text(" "), Text("false"), Text(" "), Text("0"), Text("")]
  {
  }
}

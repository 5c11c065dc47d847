/** The normalised output every validator produces: an ordered list of segments, written in the
    scripts as `{"str": text}` or `{"base64": payload}`; the errors the validators raise; and the
    left-to-right walk that all three validators share. */
module Segments {
  import opened Wrappers

  datatype Segment = Text(text: string) | Image(payload: string)

  /** The exceptions the validators raise. `Crash` is any Python runtime error outside the explicit
      checks (an `AttributeError` or `TypeError` on a value of the wrong type); the others are the
      `ValueError`s the code raises itself, with the element index where the message has one. */
  datatype Error =
    | Crash
    | NoContent
    | ContentEmptyOrNotList
    | ImageUrlNotDict(index: nat)
    | UrlNotString(index: nat)
    | UrlWithoutComma(index: nat)
    | UnexpectedItem(index: nat)
    | NoCandidates
    | CandidatesEmpty
    | NoCandidateContent
    | NoParts
    | PartsEmpty
    | UnexpectedPart(index: nat)

  /** The error names element `idx` in its message. */
  predicate HasIndex(e: Error, idx: nat)
  {
    (e.ImageUrlNotDict? || e.UrlNotString? || e.UrlWithoutComma? || e.UnexpectedItem? || e.UnexpectedPart?)
    && e.index == idx
  }

  /** The outcome of the loop `for idx, item in enumerate(items[..n])` that appends what
      `f(idx, item)` extracts to `extracted_list`, stopping at the first element that raises. */
  function Gather<T>(f: (nat, T) -> Result<seq<Segment>, Error>, items: seq<T>, n: nat): Result<seq<Segment>, Error>
    requires n <= |items|
  {
    if n == 0 then Ok([])
    else
      match Gather(f, items, n - 1)
      case Err(e) => Err(e)
      case Ok(acc) =>
        match f(n - 1, items[n - 1])
        case Err(e) => Err(e)
        case Ok(more) => Ok(acc + more)
  }

  /** Once an element has raised, later elements change nothing: there is no partial result. */
  lemma {:induction false} GatherErrorSticks<T>(f: (nat, T) -> Result<seq<Segment>, Error>, items: seq<T>, n: nat, m: nat)
    requires n <= m <= |items|
    requires Gather(f, items, n).Err?
    ensures Gather(f, items, m) == Gather(f, items, n)
    decreases m
  {
    if m > n {
      GatherErrorSticks(f, items, n, m - 1);
    }
  }

  /** One more element: its segments are appended, or its error is the outcome of the whole walk. */
  lemma GatherStep<T>(f: (nat, T) -> Result<seq<Segment>, Error>, items: seq<T>, n: nat)
    requires n < |items|
    requires Gather(f, items, n).Ok?
    ensures f(n, items[n]).Ok? ==> Gather(f, items, n + 1) == Ok(Gather(f, items, n).value + f(n, items[n]).value)
    ensures f(n, items[n]).Err? ==> Gather(f, items, |items|) == f(n, items[n])
  {
    if f(n, items[n]).Err? {
      GatherErrorSticks(f, items, n + 1, |items|);
    }
  }

  /** The walk succeeds exactly when no element raises. */
  lemma {:induction false} GatherOkIff<T>(f: (nat, T) -> Result<seq<Segment>, Error>, items: seq<T>, n: nat)
    requires n <= |items|
    ensures Gather(f, items, n).Ok? <==> forall i :: 0 <= i < n ==> f(i, items[i]).Ok?
  {
    if n > 0 {
      GatherOkIff(f, items, n - 1);
    }
  }

  /** A failed walk reports the error of the first element that raises. */
  lemma {:induction false} GatherFirstError<T>(f: (nat, T) -> Result<seq<Segment>, Error>, items: seq<T>, n: nat)
    requires n <= |items|
    requires Gather(f, items, n).Err?
    ensures exists i :: 0 <= i < n && f(i, items[i]) == Gather(f, items, n)
                        && forall j :: 0 <= j < i ==> f(j, items[j]).Ok?
  {
    if Gather(f, items, n - 1).Err? {
      GatherFirstError(f, items, n - 1);
    } else {
      GatherOkIff(f, items, n - 1);
      assert f(n - 1, items[n - 1]) == Gather(f, items, n);
    }
  }

  /** Order is preserved: what element `m` contributes comes right after what the elements
      before it contribute, and before what later elements contribute. */
  lemma {:induction false} GatherOrder<T>(f: (nat, T) -> Result<seq<Segment>, Error>, items: seq<T>, n: nat)
    requires n <= |items|
    requires Gather(f, items, n).Ok?
    ensures forall m :: 0 <= m < n ==>
      && Gather(f, items, m).Ok? && f(m, items[m]).Ok?
      && Gather(f, items, m).value + f(m, items[m]).value <= Gather(f, items, n).value
  {
    forall m | 0 <= m < n
      ensures Gather(f, items, m).Ok? && f(m, items[m]).Ok?
      ensures Gather(f, items, m).value + f(m, items[m]).value <= Gather(f, items, n).value
    {
      GatherPrefix(f, items, m + 1, n);
    }
  }

  /** A walk over fewer elements yields a prefix of the walk over more. */
  lemma {:induction false} GatherPrefix<T>(f: (nat, T) -> Result<seq<Segment>, Error>, items: seq<T>, m: nat, n: nat)
    requires 0 < m <= n <= |items|
    requires Gather(f, items, n).Ok?
    ensures Gather(f, items, m - 1).Ok? && f(m - 1, items[m - 1]).Ok?
    ensures Gather(f, items, m - 1).value + f(m - 1, items[m - 1]).value == Gather(f, items, m).value
    ensures Gather(f, items, m).value <= Gather(f, items, n).value
    decreases n
  {
    if m < n {
      GatherPrefix(f, items, m, n - 1);
    }
  }

  /** When every element contributes exactly one segment, a successful walk has one segment per
      element, in element order. */
  lemma {:induction false} GatherOneEach<T>(f: (nat, T) -> Result<seq<Segment>, Error>, items: seq<T>, n: nat)
    requires n <= |items|
    requires forall i :: 0 <= i < n ==> f(i, items[i]).Ok? ==> |f(i, items[i]).value| == 1
    requires Gather(f, items, n).Ok?
    ensures |Gather(f, items, n).value| == n
    ensures forall i :: 0 <= i < n ==> f(i, items[i]) == Ok([Gather(f, items, n).value[i]])
  {
    if n > 0 {
      GatherOneEach(f, items, n - 1);
      var v := Gather(f, items, n).value;
      var before := Gather(f, items, n - 1).value;
      assert v == before + f(n - 1, items[n - 1]).value;
      forall i | 0 <= i < n ensures f(i, items[i]) == Ok([v[i]]) {
        if i < n - 1 {
          assert v[i] == before[i];
        } else {
          assert f(n - 1, items[n - 1]).value == [v[n - 1]];
        }
      }
    }
  }

  /** The number of image segments. */
  function CountImages(segs: seq<Segment>): (k: nat)
    ensures k <= |segs|
  {
    if segs == [] then 0
    else CountImages(segs[..|segs| - 1]) + (if segs[|segs| - 1].Image? then 1 else 0)
  }

  /** No image is counted exactly when there is none: every segment is a text. */
  lemma {:induction false} CountImagesZero(segs: seq<Segment>)
    ensures CountImages(segs) == 0 <==> !HasImage(segs)
    ensures !HasImage(segs) <==> forall i :: 0 <= i < |segs| ==> segs[i].Text?
  {
    if segs != [] {
      var init := segs[..|segs| - 1];
      CountImagesZero(init);
      if HasImage(init) {
        var i :| 0 <= i < |init| && init[i].Image?;
        assert segs[i].Image?;
      }
      if HasImage(segs) && !segs[|segs| - 1].Image? {
        var i :| 0 <= i < |segs| && segs[i].Image?;
        assert init[i].Image?;
      }
    }
  }

  /** `any('base64' in res for res in contents)`. */
  predicate HasImage(segs: seq<Segment>)
  {
    exists i :: 0 <= i < |segs| && segs[i].Image?
  }

  /** The image payloads, in order. */
  function Payloads(segs: seq<Segment>): seq<string>
  {
    if segs == [] then []
    else Payloads(segs[..|segs| - 1]) + (if segs[|segs| - 1].Image? then [segs[|segs| - 1].payload] else [])
  }

  /** The texts, in order. */
  function Texts(segs: seq<Segment>): seq<string>
  {
    if segs == [] then []
    else Texts(segs[..|segs| - 1]) + (if segs[|segs| - 1].Text? then [segs[|segs| - 1].text] else [])
  }
}

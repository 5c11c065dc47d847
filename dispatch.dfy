/** `process_dict_str_and_image`: walks the segment list in order, printing each text and saving
    each image under a timestamped name. The effects are recorded as a trace of actions; decoding
    the payload into an image and writing the file are not modelled. */
module Dispatch {
  import opened Segments
  import opened Timestamp
  import opened Paths

  /** Where images go: next to the stem of an input file (editing scripts), or under
      `outputs/new_generation` (generation scripts, which have no input file). */
  datatype Target = EditOf(filePath: string) | NewGeneration

  datatype Warning =
    | NoImage           // the GenAI scripts: the output holds no image
    | NothingExtracted  // the OpenRouter script: nothing was extracted at all
    | TextOnly          // the OpenRouter script: text but no image
    | Failed            // the OpenRouter script: the validator raised

  datatype Action = PrintText(text: string) | SaveImage(path: string, payload: string) | Warn(warning: Warning)

  /** The file name `save_image_from_base64` computes at time `t`. */
  function SavePath(target: Target, t: DateTime): string
  {
    match target
    case EditOf(p) => EditPath(p, t)
    case NewGeneration => GenerationPath(t)
  }

  /** The name of the `k`-th save of a run. Each save reads the clock anew: `clock(k)` is what
      `datetime.now()` returns at the `k`-th save. */
  function FileNames(target: Target, clock: nat -> DateTime): nat -> string
  {
    (k: nat) => SavePath(target, clock(k))
  }

  /** What one segment becomes when `k` images were saved before it; `names(k)` is the name of
      the `k`-th save. */
  function ActionFor(seg: Segment, names: nat -> string, k: nat): Action
  {
    match seg
    case Text(s) => PrintText(s)
    case Image(b) => SaveImage(names(k), b)
  }

  /** The actions of the loop `for res in contents`. */
  function Actions(segs: seq<Segment>, names: nat -> string): seq<Action>
  {
    if segs == [] then []
    else
      var init := segs[..|segs| - 1];
      Actions(init, names) + [ActionFor(segs[|segs| - 1], names, CountImages(init))]
  }

  /** `process_dict_str_and_image`. With `warnWithoutImage` (the GenAI scripts) it first warns
      when no segment is an image; the other scripts do not check. */
  method ProcessSegments(segs: seq<Segment>, target: Target, clock: nat -> DateTime, warnWithoutImage: bool)
    returns (trace: seq<Action>)
    ensures trace == (if warnWithoutImage && !HasImage(segs) then [Warn(NoImage)] else [])
                     + Actions(segs, FileNames(target, clock))
  {
    trace := [];
    if warnWithoutImage {
      var hasImage := exists i :: 0 <= i < |segs| && segs[i].Image?;
      if !hasImage {
        trace := [Warn(NoImage)];
      }
    }
    var names := FileNames(target, clock);
    var actions: seq<Action> := [];
    var saved := 0;
    for i := 0 to |segs|
      invariant saved == CountImages(segs[..i])
      invariant actions == Actions(segs[..i], names)
    {
      ActionsSnoc(segs, i, names);
      match segs[i] {
        case Image(b) =>
          actions := actions + [SaveImage(names(saved), b)];
          saved := saved + 1;
        case Text(s) =>
          actions := actions + [PrintText(s)];
      }
    }
    assert segs[..|segs|] == segs;
    trace := trace + actions;
  }

  /** The loop step: one more segment appends its one action. */
  lemma ActionsSnoc(segs: seq<Segment>, i: nat, names: nat -> string)
    requires i < |segs|
    ensures Actions(segs[..i + 1], names) == Actions(segs[..i], names) + [ActionFor(segs[i], names, CountImages(segs[..i]))]
    ensures CountImages(segs[..i + 1]) == CountImages(segs[..i]) + (if segs[i].Image? then 1 else 0)
  {
    assert segs[..i + 1][..i] == segs[..i];
  }

  /** The payloads saved, in order. */
  function Saved(trace: seq<Action>): seq<string>
  {
    if trace == [] then []
    else Saved(trace[..|trace| - 1]) + (if trace[|trace| - 1].SaveImage? then [trace[|trace| - 1].payload] else [])
  }

  /** The files written, in order. */
  function SavedPaths(trace: seq<Action>): seq<string>
  {
    if trace == [] then []
    else SavedPaths(trace[..|trace| - 1]) + (if trace[|trace| - 1].SaveImage? then [trace[|trace| - 1].path] else [])
  }

  /** The texts printed, in order. */
  function Printed(trace: seq<Action>): seq<string>
  {
    if trace == [] then []
    else Printed(trace[..|trace| - 1]) + (if trace[|trace| - 1].PrintText? then [trace[|trace| - 1].text] else [])
  }

  lemma SavedAppend(t: seq<Action>, a: Action)
    ensures Saved(t + [a]) == Saved(t) + (if a.SaveImage? then [a.payload] else [])
    ensures SavedPaths(t + [a]) == SavedPaths(t) + (if a.SaveImage? then [a.path] else [])
    ensures Printed(t + [a]) == Printed(t) + (if a.PrintText? then [a.text] else [])
  {
    assert (t + [a])[..|t|] == t;
  }

  /** A warning in front of a trace saves and prints nothing. */
  lemma {:induction false} WarnInFront(w: Warning, t: seq<Action>)
    ensures Saved([Warn(w)] + t) == Saved(t)
    ensures SavedPaths([Warn(w)] + t) == SavedPaths(t)
    ensures Printed([Warn(w)] + t) == Printed(t)
  {
    if t == [] {
      SavedAppend([], Warn(w));
    } else {
      var init := t[..|t| - 1];
      WarnInFront(w, init);
      assert [Warn(w)] + t == ([Warn(w)] + init) + [t[|t| - 1]];
      SavedAppend([Warn(w)] + init, t[|t| - 1]);
      SavedAppend(init, t[|t| - 1]);
    }
  }

  /** One action per segment, in segment order: a text is printed verbatim, an image is saved
      under the name of its own save. */
  lemma {:induction false} ActionsAt(segs: seq<Segment>, names: nat -> string)
    ensures |Actions(segs, names)| == |segs|
    ensures forall i :: 0 <= i < |segs| ==>
      Actions(segs, names)[i] == ActionFor(segs[i], names, CountImages(segs[..i]))
  {
    if segs != [] {
      var init := segs[..|segs| - 1];
      var before := Actions(init, names);
      var all := before + [ActionFor(segs[|segs| - 1], names, CountImages(init))];
      assert Actions(segs, names) == all;
      ActionsAt(init, names);
      forall i | 0 <= i < |segs|
        ensures all[i] == ActionFor(segs[i], names, CountImages(segs[..i]))
      {
        if i < |init| {
          assert all[i] == before[i];
          assert init[i] == segs[i] && init[..i] == segs[..i];
        } else {
          assert segs[..i] == init;
        }
      }
    }
  }

  /** Exactly the image payloads are saved and exactly the texts printed, each in list order:
      one save per image segment and one print per text segment. */
  lemma {:induction false} SavesAndPrints(segs: seq<Segment>, names: nat -> string)
    ensures Saved(Actions(segs, names)) == Payloads(segs)
    ensures Printed(Actions(segs, names)) == Texts(segs)
    ensures |Saved(Actions(segs, names))| == CountImages(segs)
  {
    if segs != [] {
      var init := segs[..|segs| - 1];
      SavesAndPrints(init, names);
      SavedAppend(Actions(init, names), ActionFor(segs[|segs| - 1], names, CountImages(init)));
    }
  }

  /** The `k`-th image is saved under the `k`-th name. */
  lemma {:induction false} SavedPathsAre(segs: seq<Segment>, names: nat -> string)
    ensures |SavedPaths(Actions(segs, names))| == CountImages(segs)
    ensures forall k :: 0 <= k < CountImages(segs) ==> SavedPaths(Actions(segs, names))[k] == names(k)
  {
    if segs != [] {
      var init := segs[..|segs| - 1];
      SavedPathsAre(init, names);
      var before := SavedPaths(Actions(init, names));
      var a := ActionFor(segs[|segs| - 1], names, CountImages(init));
      SavedAppend(Actions(init, names), a);
      var paths := SavedPaths(Actions(segs, names));
      forall k | 0 <= k < CountImages(segs) ensures paths[k] == names(k) {
        if k < |before| {
          assert paths[k] == before[k];
        }
      }
    }
  }

  /** Two saves of one run write the same file exactly when their clock readings fall in the same
      second: the later one overwrites the earlier. */
  lemma SameSecondOverwrites(segs: seq<Segment>, target: Target, clock: nat -> DateTime, j: nat, k: nat)
    requires j < k < CountImages(segs)
    ensures var paths := SavedPaths(Actions(segs, FileNames(target, clock)));
      k < |paths| && paths[j] == SavePath(target, clock(j)) && paths[k] == SavePath(target, clock(k))
      && (paths[j] == paths[k] <==> clock(j) == clock(k))
  {
    SavedPathsAre(segs, FileNames(target, clock));
    match target {
      case EditOf(p) => EditPathCollision(p, clock(j), p, clock(k));
      case NewGeneration => GenerationPathCollision(clock(j), clock(k));
    }
  }
}

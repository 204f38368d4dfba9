/** Recovering a persisted trigger from the file system alone: select the finalized fragments that overlap
    its window, publish them, and check that they cover it. */
module Recovery {
  import opened Wrappers
  import opened Windows
  import opened Coverage

  datatype Shortfall =
    | NothingOverlaps
    | CopyRaised(published: seq<Window>)
    | NotCovered(published: seq<Window>)

  /** The overlapping files in the order they are listed. */
  function Selected(files: seq<Window>, target: Window): seq<Window> {
    if files == [] then []
    else
      var rest, last := Selected(files[..|files| - 1], target), files[|files| - 1];
      if Overlaps(last, target) then rest + [last] else rest
  }

  lemma {:induction false} SelectedMembers(files: seq<Window>, target: Window, f: Window)
    ensures f in Selected(files, target) <==> f in files && Overlaps(f, target)
  {
    if files != [] {
      SelectedMembers(files[..|files| - 1], target, f);
      assert files == files[..|files| - 1] + [files[|files| - 1]];
    }
  }

  /** The files to publish: the overlapping ones in the order they are listed. */
  method Select(files: seq<Window>, target: Window) returns (selected: seq<Window>)
    ensures selected == Selected(files, target)
  {
    selected := [];
    for i := 0 to |files|
      invariant selected == Selected(files[..i], target)
    {
      assert files[..i + 1][..i] == files[..i];
      if Overlaps(files[i], target) {
        selected := selected + [files[i]];
      }
    }
    assert files[..|files|] == files;
  }

  /** The published fragments on success. `raising` is the first selected file whose copying raises, if any:
      those before it stay published. */
  method Recover(files: seq<Window>, target: Window, tolerance: real, raising: Option<nat>)
      returns (r: Result<seq<Window>, Shortfall>)
    ensures var selected := Selected(files, target);
            r == if selected == [] then Failure(NothingOverlaps)
                 else if raising.Some? && raising.value < |selected| then Failure(CopyRaised(selected[..raising.value]))
                 else if CoverageOk(target, selected, tolerance) then Success(selected)
                 else Failure(NotCovered(selected))
  {
    var selected := Select(files, target);
    if selected == [] {
      return Failure(NothingOverlaps);
    }
    var published: seq<Window> := [];
    for i := 0 to |selected|
      invariant published == selected[..i] && !(raising.Some? && raising.value < i)
    {
      if raising == Some(i) {
        return Failure(CopyRaised(published));
      }
      published := published + [selected[i]];
    }
    assert selected[..|selected|] == selected;
    var covering := CoverageForEvent(target, published, tolerance);
    if covering.None? {
      return Failure(NotCovered(published));
    }
    return Success(published);
  }

  /** A window longer than the tolerance that the recorder's files span is always recovered: the selection
      leaves out nothing the coverage needs. */
  lemma {:induction false} RecoveryFindsSpannedTriggers(files: seq<Window>, chain: seq<Window>, target: Window,
      tolerance: real)
    requires Spans(chain, target, tolerance) && target.end - target.start > tolerance
    requires forall f :: f in chain ==> f in files
    ensures Selected(files, target) != [] && CoverageOk(target, Selected(files, target), tolerance)
  {
    forall f | f in chain && Overlaps(f, target) ensures f in Selected(files, target) {
      SelectedMembers(files, target, f);
    }
    CoverageIsComplete(target, chain, Selected(files, target), tolerance);
    var w :| w in Merged(Selected(files, target), tolerance) && Covers(w, target, tolerance);
  }

  /** A recovered trigger has media of its own overlapping files within the tolerance of every instant. */
  lemma {:induction false} RecoveredMediaIsNear(files: seq<Window>, target: Window, tolerance: real, x: real)
      returns (f: Window)
    requires tolerance >= 0.0 && CoverageOk(target, Selected(files, target), tolerance)
             && target.start <= x <= target.end
    ensures f in files && Overlaps(f, target) && Near(x, f, tolerance)
  {
    CoverageIsSound(target, Selected(files, target), tolerance, x);
    f :| f in Selected(files, target) && Near(x, f, tolerance);
    SelectedMembers(files, target, f);
  }
}

/** The display-mode scan shared by graphics_select_resolution (graphics.c) and
    select_graphics_mode (beef.c): walk the modes in order, keep a mode when its
    resolution is strictly greater than the best kept so far (which starts at 0), and
    finally apply the kept mode, or mode 0 when none was kept. The two callers differ
    only in how a mode's resolution is computed, so the scan is stated over the
    sequence of resolutions. */
module ModeSelection {
  import opened Uefi

  /** The resolution the scan compares against after looking at `keys`: that of the
      kept mode, or the initial 0. */
  function KeptResolution(keys: seq<int>, kept: Option<nat>): (resolution: int)
    requires kept.Some? ==> kept.value < |keys|
  {
    if kept.Some? then keys[kept.value] else 0
  }

  /** The mode the scan has kept after looking at all of `keys`, in order. */
  function BestMode(keys: seq<int>): (kept: Option<nat>)
    ensures kept.Some? ==> kept.value < |keys| && keys[kept.value] > 0
    decreases |keys|
  {
    if |keys| == 0 then None
    else
      var before := BestMode(keys[..|keys| - 1]);
      if keys[|keys| - 1] > KeptResolution(keys[..|keys| - 1], before) then Some(|keys| - 1)
      else before
  }

  /** The mode number handed to SetMode: a valid mode number whenever there is a mode,
      and a mode other than 0 only when that mode's resolution is positive. */
  function AppliedMode(keys: seq<int>): (mode: nat)
    ensures |keys| > 0 ==> mode < |keys|
    ensures mode > 0 ==> mode < |keys| && keys[mode] > 0
  {
    match BestMode(keys)
    case Some(k) => k
    case None => 0
  }

  /** Mode k has the greatest resolution, and every earlier mode a smaller one. */
  ghost predicate IsFirstMaximum(keys: seq<int>, k: nat)
  {
    k < |keys|
    && (forall j | 0 <= j < |keys| :: keys[j] <= keys[k])
    && (forall j | 0 <= j < k :: keys[j] < keys[k])
  }

  /** The scan keeps a mode exactly when some resolution is positive, and what it
      keeps is the first of the modes with the greatest resolution. */
  lemma {:induction false} BestModeIsFirstMaximum(keys: seq<int>)
    ensures BestMode(keys).None? <==> forall j | 0 <= j < |keys| :: keys[j] <= 0
    ensures BestMode(keys).Some? ==> IsFirstMaximum(keys, BestMode(keys).value)
  {
    if |keys| > 0 {
      var n := |keys| - 1;
      var prefix := keys[..n];
      BestModeIsFirstMaximum(prefix);
      assert forall j | 0 <= j < n :: prefix[j] == keys[j];
    }
  }

  /** Between two modes of equal resolution the scan never keeps the later one. */
  lemma TiesKeepEarlier(keys: seq<int>, i: nat, j: nat)
    requires i < j < |keys| && keys[i] == keys[j]
    ensures BestMode(keys) != Some(j)
  {
    BestModeIsFirstMaximum(keys);
  }

  /** The scan over a prefix extended by one resolution, as a loop takes one step. */
  lemma BestModeStep(keys: seq<int>, n: nat)
    requires n < |keys|
    ensures BestMode(keys[..n + 1]) ==
      if keys[n] > KeptResolution(keys[..n], BestMode(keys[..n])) then Some(n)
      else BestMode(keys[..n])
  {
    assert keys[..n + 1][..n] == keys[..n];
  }
}

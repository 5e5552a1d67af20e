/** The main thread's bookkeeping as functions of a value: navigation
    (`setCurrentImage`), applying drained decode results (`processLoaderResults`)
    and the single-slot texture cache (`unloadTexture`, `unloadAllTexturesExcept`).
    The `Viewer.AppState` methods are proved to move their state exactly as these functions say. */
module Cache {
  import opened ViewerTypes

  /** What the main thread sees: the catalogue, the displayed index, the index whose
      texture is drawn, the pending request slot, and the next GL texture name. */
  datatype View = View(entries: seq<ImageMetadata>, current: int, active: int, pending: int, nextTexture: nat)

  /** `unloadTexture`: drop the texture and the dimensions; a loaded entry becomes unloaded. */
  function Evicted(m: ImageMetadata): (e: ImageMetadata)
    ensures e.textureID == 0 && e.state != Loaded && e.fullWidth == 0 && e.fullHeight == 0
    ensures m.state != Loaded ==> e.state == m.state
    ensures e.path == m.path
  {
    m.(textureID := 0, state := if m.state == Loaded then Unloaded else m.state, fullWidth := 0, fullHeight := 0)
  }

  /** `unloadAllTexturesExcept(keep)`: evict every entry but the one at `keep`. */
  function EvictAllExcept(s: seq<ImageMetadata>, keep: int): (r: seq<ImageMetadata>)
    ensures |r| == |s|
    ensures 0 <= keep < |s| ==> r[keep] == s[keep]
    ensures forall k :: 0 <= k < |s| && k != keep ==> r[k] == Evicted(s[k])
  {
    seq(|s|, k requires 0 <= k < |s| => if k == keep then s[k] else Evicted(s[k]))
  }

  /** Evicting twice is evicting once. */
  lemma EvictionIdempotent(s: seq<ImageMetadata>, keep: int)
    ensures EvictAllExcept(EvictAllExcept(s, keep), keep) == EvictAllExcept(s, keep)
  {
  }

  /** The index navigation lands on: past the end wraps to 0, below 0 wraps to the last entry. */
  function WrapIndex(n: nat, i: int): (r: int)
    requires n > 0
    ensures 0 <= r < n
    ensures 0 <= i < n ==> r == i
  {
    if i >= n then 0 else if i < 0 then n - 1 else i
  }

  /** `setCurrentImage(newIndex)`. */
  function SetCurrent(v: View, newIndex: int): (w: View)
    ensures |w.entries| == |v.entries| && w.active == v.active && w.nextTexture == v.nextTexture
    ensures |v.entries| > 0 ==> 0 <= w.current < |v.entries|
    ensures w.pending == v.pending || w.pending == w.current
  {
    if |v.entries| == 0 then v
    else
      var i := WrapIndex(|v.entries|, newIndex);
      if v.current == i then v
      else if v.entries[i].state == Loaded then v.(current := i)
      else v.(current := i, entries := v.entries[i := v.entries[i].(state := Loading)], pending := i)
  }

  /** One drained result (the body of the drain loop in `processLoaderResults`). */
  function ApplyResult(v: View, r: LoadResult): (w: View)
    requires 0 <= r.index < |v.entries|
    ensures |w.entries| == |v.entries| && w.current == v.current && w.pending == v.pending
  {
    var i := r.index;
    var m := v.entries[i];
    if i != v.current then
      v.(entries := v.entries[i := if m.state == Loading then m.(state := Unloaded) else m])
    else if r.success then
      var uploaded := m.(fullWidth := r.width, fullHeight := r.height, textureID := v.nextTexture, state := Loaded);
      v.(entries := EvictAllExcept(v.entries[i := uploaded], i), active := i, nextTexture := v.nextTexture + 1)
    else
      v.(entries := v.entries[i := m.(state := Failed)], active := if v.active == i then -1 else v.active)
  }

  predicate IndicesInRange(n: nat, rs: seq<LoadResult>)
  {
    forall k :: 0 <= k < |rs| ==> 0 <= rs[k].index < n
  }

  /** Drain a whole queue, head first. */
  function ApplyAll(v: View, rs: seq<LoadResult>): (w: View)
    requires IndicesInRange(|v.entries|, rs)
    ensures |w.entries| == |v.entries| && w.current == v.current && w.pending == v.pending
    decreases |rs|
  {
    if rs == [] then v else ApplyAll(ApplyResult(v, rs[0]), rs[1..])
  }

  /** Draining one more result is applying it after the rest. */
  lemma {:induction false} ApplyAllSnoc(v: View, rs: seq<LoadResult>, r: LoadResult)
    requires IndicesInRange(|v.entries|, rs) && 0 <= r.index < |v.entries|
    ensures IndicesInRange(|v.entries|, rs + [r])
    ensures ApplyAll(v, rs + [r]) == ApplyResult(ApplyAll(v, rs), r)
    decreases |rs|
  {
    var t := rs + [r];
    if rs == [] {
      assert t == [r];
    } else {
      assert t[0] == rs[0] && t[1..] == rs[1..] + [r];
      ApplyAllSnoc(ApplyResult(v, rs[0]), rs[1..], r);
    }
  }

  /** The results whose buffers the drain frees: every successful one, stale or not. */
  function Successes(rs: seq<LoadResult>): seq<LoadResult>
  {
    if rs == [] then [] else (if rs[0].success then [rs[0]] else []) + Successes(rs[1..])
  }

  lemma {:induction false} SuccessesSnoc(rs: seq<LoadResult>, r: LoadResult)
    ensures Successes(rs + [r]) == Successes(rs) + (if r.success then [r] else [])
    decreases |rs|
  {
    var t := rs + [r];
    if rs == [] {
      assert t == [r];
      assert Successes(t) == (if r.success then [r] else []) + Successes([]);
    } else {
      assert t[0] == rs[0] && t[1..] == rs[1..] + [r];
      SuccessesSnoc(rs[1..], r);
      assert Successes(t) == (if rs[0].success then [rs[0]] else []) + Successes(t[1..]);
    }
  }

  /** The invariants the main thread keeps. */
  predicate Consistent(v: View)
  {
    var n := |v.entries|;
    && -1 <= v.current < n && -1 <= v.active < n && -1 <= v.pending < n
    && v.nextTexture >= 1
    // texture names come from a counter, so a new one never collides with a live one
    && (forall k :: 0 <= k < n ==> v.entries[k].textureID < v.nextTexture)
    // no entry is loaded without a texture
    && (forall k :: 0 <= k < n && v.entries[k].state == Loaded ==> v.entries[k].textureID != 0)
    // single-slot cache: at most one entry owns a texture
    && (forall k, j :: 0 <= k < n && 0 <= j < n && v.entries[k].textureID != 0 && v.entries[j].textureID != 0 ==> k == j)
    // the texture being drawn belongs to a loaded entry
    && (v.active >= 0 ==> v.entries[v.active].state == Loaded)
    // the displayed entry is always being loaded, loaded, or failed
    && (v.current >= 0 ==> v.entries[v.current].state != Unloaded)
  }

  /** Navigation: what `setCurrentImage` does to the view, case by case. */
  lemma SetCurrentCases(v: View, newIndex: int)
    ensures |v.entries| == 0 ==> SetCurrent(v, newIndex) == v
    ensures |v.entries| > 0 ==>
      var i := WrapIndex(|v.entries|, newIndex);
      var w := SetCurrent(v, newIndex);
      && (newIndex >= |v.entries| ==> i == 0)
      && (newIndex < 0 ==> i == |v.entries| - 1)
      && (v.current == i ==> w == v)
      && (v.current != i ==> w.current == i && w.active == v.active && w.nextTexture == v.nextTexture)
      && (v.current != i && v.entries[i].state != Loaded ==>
            w.entries == v.entries[i := v.entries[i].(state := Loading)] && w.pending == i)
      && (v.current != i && v.entries[i].state == Loaded ==> w.entries == v.entries && w.pending == v.pending)
  {
  }

  lemma SetCurrentKeepsConsistent(v: View, newIndex: int)
    requires Consistent(v)
    ensures Consistent(SetCurrent(v, newIndex))
  {
  }

  /** A stale result (not for the displayed index) never touches a texture, the drawn
      index or the texture counter; it only demotes a loading entry to unloaded. */
  lemma StaleResultDiscarded(v: View, r: LoadResult)
    requires 0 <= r.index < |v.entries| && r.index != v.current
    ensures var w := ApplyResult(v, r);
      && w.active == v.active && w.nextTexture == v.nextTexture
      && (forall k :: 0 <= k < |v.entries| && k != r.index ==> w.entries[k] == v.entries[k])
      && w.entries[r.index].textureID == v.entries[r.index].textureID
      && w.entries[r.index].state == (if v.entries[r.index].state == Loading then Unloaded else v.entries[r.index].state)
  {
  }

  /** A successful result for the displayed index: the entry is loaded with the result's
      dimensions and a new texture, becomes the drawn one, and every other entry is evicted. */
  lemma CurrentSuccessLoads(v: View, r: LoadResult)
    requires Consistent(v)
    requires 0 <= r.index < |v.entries| && r.index == v.current && r.success
    ensures var w := ApplyResult(v, r); var i := r.index;
      && w.entries[i].state == Loaded && w.entries[i].textureID != 0
      && w.entries[i].fullWidth == r.width && w.entries[i].fullHeight == r.height
      && w.active == i
      && (forall k :: 0 <= k < |v.entries| && k != i && v.entries[k].textureID != 0 ==> v.entries[k].textureID != w.entries[i].textureID)
      && (forall k :: 0 <= k < |v.entries| && k != i ==>
            w.entries[k].textureID == 0 && w.entries[k].fullWidth == 0 && w.entries[k].fullHeight == 0
            && w.entries[k].state == (if v.entries[k].state == Loaded then Unloaded else v.entries[k].state))
  {
  }

  /** A failed result for the displayed index: the entry fails, and the drawn index is
      cleared only if it pointed at that entry. */
  lemma CurrentFailureFails(v: View, r: LoadResult)
    requires 0 <= r.index < |v.entries| && r.index == v.current && !r.success
    ensures var w := ApplyResult(v, r);
      && w.entries[r.index].state == Failed
      && w.active == (if v.active == r.index then -1 else v.active)
      && (forall k :: 0 <= k < |v.entries| && k != r.index ==> w.entries[k] == v.entries[k])
  {
  }

  lemma ApplyResultKeepsConsistent(v: View, r: LoadResult)
    requires Consistent(v) && 0 <= r.index < |v.entries|
    ensures Consistent(ApplyResult(v, r))
  {
    var w := ApplyResult(v, r);
    var i := r.index;
    if i == v.current && r.success {
      var n := |v.entries|;
      forall k, j | 0 <= k < n && 0 <= j < n && w.entries[k].textureID != 0 && w.entries[j].textureID != 0
        ensures k == j
      {
        assert k == i && j == i;
      }
    }
  }

  /** Draining any queue of in-range results keeps every invariant. */
  lemma {:induction false} ApplyAllKeepsConsistent(v: View, rs: seq<LoadResult>)
    requires Consistent(v) && IndicesInRange(|v.entries|, rs)
    ensures Consistent(ApplyAll(v, rs))
    decreases |rs|
  {
    if rs != [] {
      ApplyResultKeepsConsistent(v, rs[0]);
      ApplyAllKeepsConsistent(ApplyResult(v, rs[0]), rs[1..]);
    }
  }

  /** However many stale results pile up, draining them uploads nothing: the textures,
      the drawn index and the texture counter are untouched. */
  lemma {:induction false} StaleDrainUploadsNothing(v: View, rs: seq<LoadResult>)
    requires IndicesInRange(|v.entries|, rs)
    requires forall k :: 0 <= k < |rs| ==> rs[k].index != v.current
    ensures var w := ApplyAll(v, rs);
      && w.active == v.active && w.nextTexture == v.nextTexture
      && (forall k :: 0 <= k < |v.entries| ==> w.entries[k].textureID == v.entries[k].textureID)
    decreases |rs|
  {
    if rs != [] {
      var u := ApplyResult(v, rs[0]);
      StaleDrainUploadsNothing(u, rs[1..]);
    }
  }

  /** The single-slot cache: while a texture is drawn, no other entry holds one. */
  lemma SingleResidentTexture(v: View)
    requires Consistent(v) && v.active >= 0
    ensures v.entries[v.active].textureID != 0
    ensures forall k :: 0 <= k < |v.entries| && k != v.active ==> v.entries[k].textureID == 0
  {
  }

  /** Scenario: the user opens entry `i`, its decode succeeds and is drained while `i` is
      still displayed; `i` ends up loaded and drawn and no other entry holds a texture. */
  lemma OpenAndDrain(v: View, i: nat, width: int, height: int, pixels: seq<bv8>)
    requires Consistent(v) && i < |v.entries| && v.current != i
    ensures var shown := SetCurrent(v, i);
      var w := ApplyResult(shown, LoadResult(i, Some(pixels), width, height, true));
      && w.current == i && w.active == i && w.entries[i].state == Loaded
      && (forall k :: 0 <= k < |v.entries| && k != i ==> w.entries[k].textureID == 0)
  {
    var shown := SetCurrent(v, i);
    SetCurrentKeepsConsistent(v, i);
    CurrentSuccessLoads(shown, LoadResult(i, Some(pixels), width, height, true));
  }
}

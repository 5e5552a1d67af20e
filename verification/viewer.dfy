/** The viewer's application state (`AppState`) and the operations that change it:
    the directory scan's filter, navigation, the drain of decode results, one iteration
    of the loader worker, the texture cache, and the draw guard with the animation tick. */
module Viewer {
  import opened ViewerTypes
  import opened Extensions
  import opened Cache
  import opened Playback
  import opened ImageLists
  import opened Channels

  /** The entries the directory scan adds for `names`, in order. */
  function Catalogue(names: seq<string>): (r: seq<ImageMetadata>)
    ensures forall k :: 0 <= k < |r| ==> r[k].state == Unloaded && r[k].textureID == 0
    ensures forall k :: 0 <= k < |r| ==> IsCatalogued(r[k].path)
    ensures |r| <= |names|
    ensures forall k :: 0 <= k < |r| ==> r[k] == NewEntry(r[k].path) && r[k].path in names
    ensures forall i :: 0 <= i < |names| && IsCatalogued(names[i]) ==> NewEntry(names[i]) in r
  {
    if names == [] then []
    else
      var rest := Catalogue(names[1..]);
      assert forall i :: 1 <= i < |names| ==> names[i] == names[1..][i - 1];
      (if IsCatalogued(names[0]) then [NewEntry(names[0])] else []) + rest
  }

  /** The file size the worker records when `stat` succeeds. */
  function WithFileSize(m: ImageMetadata, statSize: Option<nat>): (r: ImageMetadata)
    ensures r == m.(fileSizeKB := r.fileSizeKB)
    ensures statSize.None? ==> r == m
    ensures statSize.Some? ==> r.fileSizeKB * 1024 <= statSize.value
  {
    if statSize.Some? then m.(fileSizeKB := FileSizeKB(statSize.value)) else m
  }

  /** Appending fresh, unloaded entries keeps the invariants. */
  lemma AppendKeepsConsistent(v: View, more: seq<ImageMetadata>)
    requires Consistent(v)
    requires forall k :: 0 <= k < |more| ==> more[k].state == Unloaded && more[k].textureID == 0
    ensures Consistent(v.(entries := v.entries + more))
  {
    var w := v.(entries := v.entries + more);
    var n := |v.entries|;
    assert forall k :: n <= k < |w.entries| ==> w.entries[k] == more[k - n];
  }

  /** Replacing an entry by one with the same state and texture keeps the invariants, and
      so does clearing the pending slot. */
  lemma SameResidencyKeepsConsistent(v: View, i: nat, m: ImageMetadata)
    requires Consistent(v) && i < |v.entries|
    requires m.state == v.entries[i].state && m.textureID == v.entries[i].textureID
    ensures Consistent(v.(entries := v.entries[i := m]))
    ensures Consistent(v.(entries := v.entries[i := m], pending := -1))
  {
  }

  class AppState {
    const images: ImageList
    const slot: RequestSlot
    const results: ResultQueue
    var currentIndex: int
    var activeTextureIndex: int
    /** Model of GL texture-name allocation: `glGenTextures` hands out this name, then the next. */
    var nextTexture: nat

    /** The storage invariant, and every queued result names an entry of the catalogue. */
    ghost predicate Valid()
      reads this, images, slot, results
    {
      && images.Valid()
      && -1 <= currentIndex < images.size
      && -1 <= activeTextureIndex < images.size
      && -1 <= slot.next < images.size
      && IndicesInRange(images.size, results.contents)
    }

    /** The main thread's view of this state. */
    function Snapshot(): View
      reads this, images, images.items, slot
      requires images.Valid()
    {
      Cache.View(images.Contents(), currentIndex, activeTextureIndex, slot.next, nextTexture)
    }

    /** `init_app_state` followed by `loader_start`. */
    constructor ()
      ensures Valid() && fresh(images) && fresh(images.items) && fresh(slot) && fresh(results)
      ensures Snapshot() == Cache.View([], -1, -1, -1, 1) && results.contents == []
      ensures Consistent(Snapshot())
    {
      images := new ImageList();
      slot := new RequestSlot();
      results := new ResultQueue();
      currentIndex, activeTextureIndex := -1, -1;
      nextTexture := 1;
    }

    /** The filter of `findImagesInDirectory` over the regular files of the directory,
        in the order the directory lists them. */
    method FindImagesInDirectory(names: seq<string>)
      requires Valid()
      modifies images, images.items
      ensures Valid()
      ensures Snapshot() == old(Snapshot()).(entries := old(Snapshot()).entries + Catalogue(names))
    {
      for i := 0 to |names|
        invariant Valid()
        invariant images.items == old(images.items) || fresh(images.items)
        invariant images.Contents() == old(images.Contents()) + Catalogue(names[..i])
      {
        ghost var before := images.Contents();
        AddIfListed(names[i]);
        ScanStep(old(images.Contents()), before, images.Contents(), names, i);
      }
      assert names[..|names|] == names;
    }

    /** One directory entry of the scan: catalogue it when its extension is listed. */
    method AddIfListed(name: string)
      requires Valid()
      modifies images, images.items
      ensures Valid()
      ensures images.items == old(images.items) || fresh(images.items)
      ensures images.Contents() == old(images.Contents()) + (if IsCatalogued(name) then [NewEntry(name)] else [])
    {
      var matched := IsListedImage(name);
      if matched {
        images.Add(NewEntry(name), true);
      }
    }

    /** `setCurrentImage`. */
    method SetCurrentImage(newIndex: int)
      requires Valid()
      modifies this, images.items, slot
      ensures Valid()
      ensures Snapshot() == SetCurrent(old(Snapshot()), newIndex)
      ensures results.contents == old(results.contents)
    {
      if images.size == 0 {
        return;
      }
      var i := newIndex;
      if i >= images.size {
        i := 0;
      } else if i < 0 {
        i := images.size - 1;
      }
      if currentIndex == i {
        return;
      }
      currentIndex := i;
      if images.items[i].state != Loaded {
        images.items[i] := images.items[i].(state := Loading);
        slot.Request(i);
      }
    }

    /** `unloadTexture` on entry `k`. */
    method UnloadTexture(k: nat)
      requires images.Valid() && k < images.size
      modifies images.items
      ensures images.items[..] == old(images.items[..])[k := Evicted(old(images.items[k]))]
    {
      var m := images.items[k];
      if m.textureID != 0 {
        m := m.(textureID := 0);
      }
      if m.state == Loaded {
        m := m.(state := Unloaded);
      }
      images.items[k] := m.(fullWidth := 0, fullHeight := 0);
    }

    /** `unloadAllTexturesExcept(keep)`. */
    method UnloadAllTexturesExcept(keep: int)
      requires images.Valid()
      modifies images.items
      ensures images.Contents() == EvictAllExcept(old(images.Contents()), keep)
      ensures images.items[images.size..] == old(images.items[images.size..])
    {
      var n := images.size;
      for i := 0 to n
        invariant forall k :: 0 <= k < i ==> images.items[k] == (if k == keep then old(images.items[k]) else Evicted(old(images.items[k])))
        invariant forall k :: i <= k < images.items.Length ==> images.items[k] == old(images.items[k])
      {
        if i == keep {
          continue;
        }
        UnloadTexture(i);
      }
    }

    /** `processLoaderResults`: drain the result queue, applying each result in order.
        `freed` lists the results whose pixel buffers are released, in order. */
    method ProcessLoaderResults() returns (freed: seq<LoadResult>)
      requires Valid()
      modifies this, images.items, results
      ensures Valid()
      ensures Snapshot() == ApplyAll(old(Snapshot()), old(results.contents))
      ensures results.contents == []
      ensures freed == Successes(old(results.contents))
    {
      ghost var v0, q0 := Snapshot(), results.contents;
      ghost var done := 0;
      freed := [];
      while true
        invariant Valid()
        invariant done <= |q0| && results.contents == q0[done..]
        invariant IndicesInRange(|v0.entries|, q0[..done])
        invariant Snapshot() == ApplyAll(v0, q0[..done])
        invariant freed == Successes(q0[..done])
        decreases |results.contents|
      {
        var next := results.Dequeue();
        if next.None? {
          break;
        }
        var r := next.value;
        assert r == q0[done] && q0[..done + 1] == q0[..done] + [r];
        ApplyAllSnoc(v0, q0[..done], r);
        SuccessesSnoc(q0[..done], r);
        if r.success {
          freed := freed + [r];
        }
        ApplyLoadResult(r);
        done := done + 1;
      }
      assert q0[..done] == q0;
    }

    /** The body of the drain loop for one result `r`. */
    method ApplyLoadResult(r: LoadResult)
      requires Valid() && 0 <= r.index < images.size
      modifies this, images.items
      ensures Valid()
      ensures Snapshot() == ApplyResult(old(Snapshot()), r)
    {
      if r.index != currentIndex {
        DiscardStale(r.index);
      } else if r.success {
        UploadCurrent(r);
      } else {
        FailCurrent(r.index);
      }
    }

    /** A result for an index the user has moved away from: its buffer is dropped and a
        loading entry goes back to unloaded. */
    method DiscardStale(i: nat)
      requires images.Valid() && i < images.size && i != currentIndex
      modifies images.items
      ensures Snapshot() == ApplyResult(old(Snapshot()), LoadResult(i, None, 0, 0, false))
    {
      if images.items[i].state == Loading {
        images.items[i] := images.items[i].(state := Unloaded);
      }
      assert images.items[..images.size] == old(images.items[..images.size])[i := images.items[i]];
    }

    /** A successful result for the displayed index: upload a new texture, make it the drawn
        one, and evict every other texture. */
    method UploadCurrent(r: LoadResult)
      requires images.Valid() && r.index == currentIndex && 0 <= r.index < images.size && r.success
      modifies this, images.items
      ensures Snapshot() == ApplyResult(old(Snapshot()), r)
    {
      var i := r.index;
      var m := images.items[i];
      images.items[i] := m.(fullWidth := r.width, fullHeight := r.height, textureID := nextTexture);
      nextTexture := nextTexture + 1;
      images.items[i] := images.items[i].(state := Loaded);
      activeTextureIndex := i;
      ghost var uploaded := images.Contents();
      assert uploaded == old(images.Contents())[i := m.(fullWidth := r.width, fullHeight := r.height, textureID := old(nextTexture), state := Loaded)];
      UnloadAllTexturesExcept(activeTextureIndex);
    }

    /** A failed result for the displayed index: the entry fails, and stops being drawn. */
    method FailCurrent(i: nat)
      requires images.Valid() && i == currentIndex && i < images.size
      modifies this, images.items
      ensures Snapshot() == ApplyResult(old(Snapshot()), LoadResult(i, None, 0, 0, false))
    {
      images.items[i] := images.items[i].(state := Failed);
      if activeTextureIndex == i {
        activeTextureIndex := -1;
      }
      assert images.items[..images.size] == old(images.items[..images.size])[i := images.items[i]];
    }

    /** One iteration of `loader_thread_func` after the wait: take the slot (skipping -1),
        record the file size if `stat` succeeded, pick the decoder by extension, decode, and
        enqueue the result. `decode` stands for the decoder libraries; `statSize` for `stat`;
        `nodeAllocOk` for the queue node allocation. */
    method LoaderIteration(decode: (Decoder, string) -> DecodeOutput, statSize: Option<nat>, nodeAllocOk: bool)
      returns (taken: int)
      requires Valid()
      modifies images.items, slot, results
      ensures Valid()
      ensures taken == old(slot.next) && slot.next == -1
      ensures taken == -1 ==> images.Contents() == old(images.Contents()) && results.contents == old(results.contents)
      ensures taken != -1 ==>
        var m := old(images.Contents())[taken];
        && images.Contents() == old(images.Contents())[taken := WithFileSize(m, statSize)]
        && results.contents == old(results.contents) +
             (if nodeAllocOk then [ResultOf(taken, decode(SelectDecoder(m.path), m.path))] else [])
    {
      taken := slot.Take();
      if taken == -1 {
        return;
      }
      var meta := images.items[taken];
      if statSize.Some? {
        images.items[taken] := meta.(fileSizeKB := FileSizeKB(statSize.value));
      }
      var loader := LookupLoader(meta.path);
      var out := decode(loader, meta.path);
      results.Enqueue(ResultOf(taken, out), nodeAllocOk);
    }

    /** `updateGifAnimation` on entry `k` at time `now`. */
    method UpdateGifAnimation(k: nat, now: U32)
      requires images.Valid() && k < images.size
      modifies images.items
      ensures images.items[..] == old(images.items[..])[k := Tick(old(images.items[k]), now)]
    {
      var m := images.items[k];
      if m.gifAnimation.None? || m.gifAnimation.value.Count() <= 1 {
        return;
      }
      if now >= m.gifNextFrameTime {
        var anim := m.gifAnimation.value;
        var f := (m.gifCurrentFrame + 1) % anim.Count();
        images.items[k] := m.(gifCurrentFrame := f, gifNextFrameTime := (now + anim.delays[f]) % U32_LIMIT);
      }
    }

    /** The guard and animation tick of `renderFrame`: nothing is drawn or ticked unless
        the active entry is loaded with a texture. */
    method RenderFrame(now: U32) returns (drew: bool)
      requires Valid()
      modifies images.items
      ensures Valid()
      ensures drew == ShouldDraw(old(Snapshot()))
      ensures !drew ==> images.Contents() == old(images.Contents())
      ensures drew ==> images.Contents() == old(images.Contents())[activeTextureIndex := Tick(old(images.Contents())[activeTextureIndex], now)]
    {
      if activeTextureIndex < 0 {
        return false;
      }
      var m := images.items[activeTextureIndex];
      if m.state != Loaded || m.textureID == 0 {
        return false;
      }
      UpdateGifAnimation(activeTextureIndex, now);
      drew := true;
    }
  }

  /** One more name scanned: the catalogue grows by that name's entry, if any. */
  lemma ScanStep(start: seq<ImageMetadata>, before: seq<ImageMetadata>, after: seq<ImageMetadata>, names: seq<string>, i: nat)
    requires i < |names|
    requires before == start + Catalogue(names[..i])
    requires after == before + (if IsCatalogued(names[i]) then [NewEntry(names[i])] else [])
    ensures after == start + Catalogue(names[..i + 1])
  {
    assert names[..i + 1] == names[..i] + [names[i]];
    CatalogueAppend(names[..i], names[i]);
  }

  lemma {:induction false} CatalogueAppend(names: seq<string>, name: string)
    ensures Catalogue(names + [name]) == Catalogue(names) + (if IsCatalogued(name) then [NewEntry(name)] else [])
    decreases |names|
  {
    var t := names + [name];
    var last := if IsCatalogued(name) then [NewEntry(name)] else [];
    if names == [] {
      assert t == [name] && t[1..] == [];
      assert Catalogue(t) == last + Catalogue([]);
    } else {
      var head := if IsCatalogued(names[0]) then [NewEntry(names[0])] else [];
      assert t[0] == names[0] && t[1..] == names[1..] + [name];
      var rest := Catalogue(names[1..]);
      assert Catalogue(t) == head + Catalogue(t[1..]);
      CatalogueAppend(names[1..], name);
      assert Catalogue(t[1..]) == rest + last;
      assert Catalogue(names) == head + rest;
      AppendAssoc(head, rest, last);
    }
  }

  lemma AppendAssoc<T>(a: seq<T>, b: seq<T>, c: seq<T>)
    ensures a + (b + c) == (a + b) + c
  {
  }
}

/**
 * The dummy backend: it renders nothing and exists to check that callers
 * keep to the image-lifetime discipline. It keeps a table of the images it
 * has handed out, keyed by pixmap, with a reference count per image. Compose,
 * image_op, is_image_transparent and copy first look the image's pixmap up in
 * the table and check that its count is positive; release only asserts that
 * the count it reaches through the image is positive.
 */
module Dummy {
  import opened X
  import opened BackendCommon

  type Pixmap = Xid

  /** max_buffer_age of the dummy backend. */
  const MaxBufferAge: int := 5

  /** What the table keeps for one pixmap (struct dummy_image with its shared count). */
  datatype Record = Record(transparent: bool, refcount: int)

  /** The image table (the uthash table `images`), keyed by pixmap. */
  type Registry = map<Pixmap, Record>

  /**
   * The handle callers hold. While an image is registered there is exactly one
   * record for its pixmap, so the handle is determined by the pixmap.
   */
  datatype DummyImage = DummyImage(pixmap: Pixmap)

  /** The reference-changing calls a caller can make on the table. */
  datatype Event = Bound(pixmap: Pixmap, transparent: bool) | Copied(pixmap: Pixmap) | Released(pixmap: Pixmap)

  /** Every record in the table holds at least one reference. */
  ghost predicate AllLive(reg: Registry)
  {
    forall p :: p in reg ==> reg[p].refcount > 0
  }

  /**
   * The table after one call, or None when the call trips one of the
   * backend's assertions (a copy or release of an image with no live record).
   */
  function Step(reg: Registry, e: Event): Option<Registry>
  {
    match e
    case Bound(p, t) =>
      if p in reg then Some(reg[p := reg[p].(refcount := reg[p].refcount + 1)])
      else Some(reg[p := Record(t, 1)])
    case Copied(p) =>
      if p in reg && reg[p].refcount > 0 then Some(reg[p := reg[p].(refcount := reg[p].refcount + 1)])
      else None
    case Released(p) =>
      if p in reg && reg[p].refcount > 0 then
        var n := reg[p].refcount - 1;
        Some(if n == 0 then reg - {p} else reg[p := reg[p].(refcount := n)])
      else None
  }

  /** The table after a sequence of calls on a fresh backend. */
  function Replay(events: seq<Event>): Option<Registry>
  {
    if events == [] then Some(map[])
    else
      match Replay(events[..|events| - 1])
      case None => None
      case Some(reg) => Step(reg, events[|events| - 1])
  }

  /** How one call changes the number of references to `p`. */
  function Delta(e: Event, p: Pixmap): int
  {
    if e.pixmap != p then 0 else if e.Released? then -1 else 1
  }

  /** Binds plus copies minus releases of `p`. */
  function NetCount(events: seq<Event>, p: Pixmap): int
  {
    if events == [] then 0
    else NetCount(events[..|events| - 1], p) + Delta(events[|events| - 1], p)
  }

  /** Every copy and release is of a pixmap that holds a live reference at that point. */
  ghost predicate Disciplined(events: seq<Event>)
  {
    forall i :: 0 <= i < |events| && !events[i].Bound? ==> NetCount(events[..i], events[i].pixmap) > 0
  }

  /**
   * The transparency of the bind that opened `p`'s current lifetime: the last
   * bind of `p` made while `p` held no reference.
   */
  function OpeningTransparency(events: seq<Event>, p: Pixmap): bool
  {
    if events == [] then false
    else
      var h, e := events[..|events| - 1], events[|events| - 1];
      if e.Bound? && e.pixmap == p && NetCount(h, p) == 0 then e.transparent
      else OpeningTransparency(h, p)
  }

  /**
   * Whatever sequence of binds, copies and releases a caller makes, a pixmap has
   * a record exactly when its net reference count is positive, the record's
   * count is that net count, and its transparency is the one given by the
   * bind that created the record (later binds of the same pixmap ignore their
   * format).
   */
  lemma {:induction false} ReplayTracksNetCount(events: seq<Event>)
    requires Replay(events).Some?
    ensures AllLive(Replay(events).value)
    ensures forall p :: p in Replay(events).value <==> NetCount(events, p) > 0
    ensures forall p :: p !in Replay(events).value ==> NetCount(events, p) == 0
    ensures forall p :: p in Replay(events).value ==>
      Replay(events).value[p].refcount == NetCount(events, p)
      && Replay(events).value[p].transparent == OpeningTransparency(events, p)
  {
    if events != [] {
      var h, e := events[..|events| - 1], events[|events| - 1];
      ReplayTracksNetCount(h);
      var reg := Replay(h).value;
      assert Replay(events) == Step(reg, e);
      forall p
        ensures NetCount(events, p) == NetCount(h, p) + Delta(e, p)
        ensures OpeningTransparency(events, p) ==
          if e.Bound? && e.pixmap == p && NetCount(h, p) == 0 then e.transparent
          else OpeningTransparency(h, p)
      {
      }
    }
  }

  /**
   * A sequence of calls runs without tripping an assertion exactly when every
   * copy and release finds a live reference: releasing below zero, or copying
   * or releasing a freed image, is rejected.
   */
  lemma {:induction false} ReplayDefinedIffDisciplined(events: seq<Event>)
    ensures Replay(events).Some? <==> Disciplined(events)
  {
    if events != [] {
      var n := |events| - 1;
      var h, e := events[..n], events[n];
      ReplayDefinedIffDisciplined(h);
      assert forall i :: 0 <= i < n ==> events[i] == h[i] && events[..i] == h[..i];
      assert Disciplined(events) <==> Disciplined(h) && (e.Bound? || NetCount(h, e.pixmap) > 0);
      if Replay(h).Some? {
        ReplayTracksNetCount(h);
      }
    }
  }

  /** Replaying one more call applies that call to the replayed table. */
  lemma ReplayAppend(events: seq<Event>, reg: Registry, e: Event)
    requires Replay(events) == Some(reg)
    ensures Replay(events + [e]) == Step(reg, e)
  {
    assert (events + [e])[..|events|] == events;
  }

  /** The dummy backend instance (struct dummy_data). */
  class Backend {
    var images: Registry
    /** The binds, copies and releases made on this backend so far. */
    ghost var history: seq<Event>

    ghost predicate Valid()
      reads this
    {
      Replay(history) == Some(images) && AllLive(images)
    }

    /** dummy_init: a backend with an empty table. */
    constructor ()
      ensures Valid() && images == map[] && history == []
    {
      images := map[];
      history := [];
    }

    /**
     * dummy_check_image: the handle's pixmap has a record with a positive count.
     * Under the table invariant the count test never fails once the lookup succeeds.
     */
    predicate IsLive(img: DummyImage): (live: bool)
      reads this
      ensures Valid() ==> (live <==> img.pixmap in images)
    {
      img.pixmap in images && images[img.pixmap].refcount > 0
    }

    /** A handle passes dummy_check_image exactly when its pixmap holds references. */
    lemma LiveIffReferenced(img: DummyImage)
      requires Valid()
      ensures IsLive(img) <==> NetCount(history, img.pixmap) > 0
    {
      ReplayTracksNetCount(history);
    }

    /** dummy_bind_pixmap */
    method BindPixmap(pixmap: Pixmap, fmt: VisualInfo, owned: bool) returns (img: DummyImage)
      requires Valid()
      modifies this
      ensures Valid() && img == DummyImage(pixmap) && IsLive(img)
      ensures history == old(history) + [Bound(pixmap, fmt.alphaSize != 0)]
      ensures pixmap !in old(images) ==>
        images == old(images)[pixmap := Record(fmt.alphaSize != 0, 1)]
      ensures pixmap in old(images) ==>
        images == old(images)[pixmap := old(images)[pixmap].(refcount := old(images)[pixmap].refcount + 1)]
    {
      ghost var e := Bound(pixmap, fmt.alphaSize != 0);
      ReplayAppend(history, images, e);
      var updated: Registry;
      if pixmap in images {
        updated := images[pixmap := images[pixmap].(refcount := images[pixmap].refcount + 1)];
      } else {
        updated := images[pixmap := Record(fmt.alphaSize != 0, 1)];
      }
      assert Step(images, e) == Some(updated);
      images := updated;
      history := history + [e];
      img := DummyImage(pixmap);
    }

    /** dummy_release_image */
    method ReleaseImage(img: DummyImage)
      requires Valid() && IsLive(img)
      modifies this
      ensures Valid()
      ensures history == old(history) + [Released(img.pixmap)]
      ensures old(images)[img.pixmap].refcount == 1 ==> images == old(images) - {img.pixmap}
      ensures old(images)[img.pixmap].refcount > 1 ==>
        images == old(images)[img.pixmap := old(images)[img.pixmap].(refcount := old(images)[img.pixmap].refcount - 1)]
    {
      ghost var e := Released(img.pixmap);
      ReplayAppend(history, images, e);
      var r := images[img.pixmap];
      r := r.(refcount := r.refcount - 1);
      if r.refcount == 0 {
        images := images - {img.pixmap};
      } else {
        images := images[img.pixmap := r];
      }
      history := history + [e];
    }

    /** dummy_image_copy: another reference to the very same record. */
    method Copy(img: DummyImage, regVisible: Region) returns (r: DummyImage)
      requires Valid() && IsLive(img)
      modifies this
      ensures Valid() && r == img
      ensures history == old(history) + [Copied(img.pixmap)]
      ensures images == old(images)[img.pixmap := old(images)[img.pixmap].(refcount := old(images)[img.pixmap].refcount + 1)]
    {
      ghost var e := Copied(img.pixmap);
      ReplayAppend(history, images, e);
      images := images[img.pixmap := images[img.pixmap].(refcount := images[img.pixmap].refcount + 1)];
      history := history + [e];
      r := img;
    }

    /** dummy_is_image_transparent */
    method IsImageTransparent(img: DummyImage) returns (t: bool)
      requires Valid() && IsLive(img)
      ensures t == OpeningTransparency(history, img.pixmap)
    {
      ReplayTracksNetCount(history);
      t := images[img.pixmap].transparent;
    }

    /** dummy_compose: nothing is drawn, only the handle is checked. */
    method Compose(img: DummyImage, dstX: int, dstY: int, regPaint: Region, regVisible: Region)
      requires Valid() && IsLive(img)
      ensures images == old(images)
    {
    }

    /** dummy_fill: nothing is drawn. */
    method Fill(c: Color, clip: Region)
      ensures images == old(images)
    {
    }

    /** dummy_image_op: every operation succeeds once the handle is checked. */
    method ImageOp(op: ImageOperation, img: DummyImage, regOp: Option<Region>, regVisible: Region)
      returns (ok: bool)
      requires Valid() && IsLive(img)
      ensures ok
    {
      ok := true;
    }

    /** dummy_buffer_age: the previous frame is always reported as reusable. */
    function BufferAge(): (age: int)
      ensures age == 2 && age <= MaxBufferAge
    {
      2
    }

    /**
     * dummy_deinit: one leak warning per image still registered, then the
     * table is drained.
     */
    method Deinit() returns (leaks: seq<Pixmap>)
      modifies this
      ensures images == map[]
      ensures forall p :: p in leaks <==> p in old(images)
      ensures |leaks| == |old(images).Keys|
      ensures forall i, j :: 0 <= i < j < |leaks| ==> leaks[i] != leaks[j]
    {
      leaks := [];
      while images != map[]
        invariant forall p :: p in leaks <==> p in old(images) && p !in images
        invariant images.Keys <= old(images).Keys
        invariant |leaks| + |images.Keys| == |old(images).Keys|
        invariant forall i, j :: 0 <= i < j < |leaks| ==> leaks[i] != leaks[j]
        decreases |images.Keys|
      {
        var p :| p in images;
        leaks := leaks + [p];
        images := images - {p};
      }
    }
  }
}

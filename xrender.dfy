/**
 * The xrender backend: images are RENDER pictures on X pixmaps, composed into
 * a scratch buffer (back buffer 2) and presented either straight onto the
 * target window or, with vsync, through one of two back buffers and the
 * Present extension. Every X request the backend makes is returned as a
 * request log; replies (new resource ids, errors, completion events) are
 * parameters.
 */
module XRender {
  import opened X
  import opened BackendCommon
  import opened ImageMeta
  import Presentation

  /** max_buffer_age of the xrender backend. */
  const MaxBufferAge: int := 2

  /**
   * buffer_age is not bounded by max_buffer_age: from a vsync start, a flip, two
   * copies and a flip leave the buffer about to be drawn into 4 frames old.
   * Callers treat an age above the maximum like an unknown one.
   */
  lemma ReportedAgeMayExceedMaxBufferAge()
    ensures var outcomes := [Presentation.Completed(ModeFlip), Presentation.Completed(ModeCopy),
                             Presentation.Completed(ModeCopy), Presentation.Completed(ModeFlip)];
      Presentation.ReportedAge(Presentation.Run(Presentation.InitialState(true), outcomes)) == 4 > MaxBufferAge
  {
  }

  /** The index of the scratch buffer in `back` and `backPixmap`. */
  const Scratch: int := 2

  /** An image handle (struct _xrender_image_data), updated in place by image_op. */
  class Image {
    var pixmap: Xid
    var pict: Xid
    var width: int
    var height: int
    var ewidth: int
    var eheight: int
    var hasAlpha: bool
    var opacity: real
    var visual: Xid
    var depth: int
    var owned: bool

    /** The record as a value. */
    function Data(): Meta
      reads this
    {
      Meta(pixmap, pict, width, height, ewidth, eheight, hasAlpha, opacity, visual, depth, owned)
    }

    ghost predicate Valid()
      reads this
    {
      ValidMeta(Data())
    }

    /** A new record holding `m` (allocation plus field-by-field initialisation). */
    constructor (m: Meta)
      ensures Data() == m
    {
      pixmap, pict := m.pixmap, m.pict;
      width, height := m.width, m.height;
      ewidth, eheight := m.ewidth, m.eheight;
      hasAlpha, opacity := m.hasAlpha, m.opacity;
      visual, depth := m.visual, m.depth;
      owned := m.owned;
    }
  }

  /**
   * What backend_xrender_init learns from the session and the server: the
   * vsync option, whether the Present extension exists, whether selecting
   * Present input failed, whether registering for its special events
   * succeeded, and the ids the creation requests returned (XNone on failure)
   * for the target picture, the black and white pixels and back buffers 0 to 2.
   */
  datatype InitEnv = InitEnv(
    vsyncConfigured: bool,
    presentExists: bool,
    selectInputFails: bool,
    specialEventRegistered: bool,
    targetWin: Xid,
    target: Xid,
    blackPixel: Xid,
    whitePixel: Xid,
    backPixmaps: seq<Xid>,
    backPictures: seq<Xid>)

  /**
   * vsync stays on only when it was asked for, the Present extension exists,
   * selecting its input succeeded and registering for its events succeeded.
   */
  predicate VsyncEnabled(env: InitEnv)
  {
    env.vsyncConfigured && env.presentExists && !env.selectInputFails && env.specialEventRegistered
  }

  /** Back buffers `first` to 2 were all created. */
  predicate BuffersCreated(env: InitEnv, first: int)
    requires |env.backPixmaps| == 3 && |env.backPictures| == 3
  {
    && (first <= 0 ==> env.backPixmaps[0] != XNone && env.backPictures[0] != XNone)
    && (first <= 1 ==> env.backPixmaps[1] != XNone && env.backPictures[1] != XNone)
    && (first <= 2 ==> env.backPixmaps[2] != XNone && env.backPictures[2] != XNone)
  }

  /** Mask picture i of the alpha-mask table has alpha i / MAX_ALPHA. */
  ghost predicate AlphaTableFilled(alphaPict: array<real>)
    reads alphaPict
  {
    alphaPict.Length == MaxAlpha + 1
    && forall i :: 0 <= i <= MaxAlpha ==> alphaPict[i] == i as real / MaxAlpha as real
  }

  /** A backend instance (struct _xrender_data). */
  class Backend {
    var vsync: bool
    /** The double buffer (0 or 1) the next frame is drawn into. */
    var currBack: int
    /** The age of each back buffer in frames, or Unknown. */
    var bufferAge: array<int>
    /** Back buffer pictures and their pixmaps: 0 and 1 for double buffering, 2 the scratch buffer. */
    var back: array<Xid>
    var backPixmap: array<Xid>
    /** The alpha of the solid mask picture of each level. */
    var alphaPict: array<real>
    var target: Xid
    var targetWin: Xid
    var whitePixel: Xid
    var blackPixel: Xid
    /** Whether the backend is registered for Present special events. */
    var presentEvent: bool

    /** The present bookkeeping as a value. */
    ghost function State(): Presentation.PresentState
      reads this, bufferAge
      requires bufferAge.Length == 3
    {
      Presentation.PresentState(vsync, currBack, [bufferAge[0], bufferAge[1], bufferAge[2]])
    }

    ghost predicate Valid()
      reads this, bufferAge, back, backPixmap, alphaPict
    {
      && bufferAge.Length == 3 && back.Length == 3 && backPixmap.Length == 3
      && AlphaTableFilled(alphaPict)
      && (currBack == 0 || currBack == 1)
      && back[Scratch] != XNone && backPixmap[Scratch] != XNone
      && (vsync ==> presentEvent && back[0] != XNone && back[1] != XNone
                    && backPixmap[0] != XNone && backPixmap[1] != XNone)
      && (vsync ==> Presentation.AgeSane(bufferAge[0]) && Presentation.AgeSane(bufferAge[1]))
    }

    /**
     * The infallible start of backend_xrender_init: the zero-filled record
     * ccalloc returns, the alpha-mask table, the black and white pixels and the
     * target window and picture.
     */
    constructor (env: InitEnv)
      ensures !vsync && currBack == 0 && !presentEvent
      ensures target == env.target && targetWin == env.targetWin
      ensures whitePixel == env.whitePixel && blackPixel == env.blackPixel
      ensures fresh(bufferAge) && fresh(back) && fresh(backPixmap) && fresh(alphaPict)
      ensures back != backPixmap
      ensures bufferAge.Length == 3 && bufferAge[0] == 0 && bufferAge[1] == 0 && bufferAge[2] == 0
      ensures back.Length == 3 && back[0] == XNone && back[1] == XNone && back[2] == XNone
      ensures backPixmap.Length == 3 && backPixmap[0] == XNone && backPixmap[1] == XNone && backPixmap[2] == XNone
      ensures AlphaTableFilled(alphaPict)
    {
      vsync, currBack, presentEvent := false, 0, false;
      bufferAge := new int[3](_ => 0);
      back := new Xid[3](_ => XNone);
      backPixmap := new Xid[3](_ => XNone);
      alphaPict := new real[MaxAlpha + 1](_ => 0.0);
      target, targetWin, whitePixel, blackPixel := env.target, env.targetWin, env.whitePixel, env.blackPixel;
      new;
      FillAlphaTable();
    }

    /** The loop of backend_xrender_init that creates mask picture i with alpha i / MAX_ALPHA. */
    method FillAlphaTable()
      requires alphaPict.Length == MaxAlpha + 1
      modifies alphaPict
      ensures AlphaTableFilled(alphaPict)
    {
      var i := 0;
      while i <= MaxAlpha
        invariant 0 <= i <= MaxAlpha + 1
        invariant forall j :: 0 <= j < i ==> alphaPict[j] == j as real / MaxAlpha as real
      {
        alphaPict[i] := i as real / MaxAlpha as real;
        i := i + 1;
      }
    }

    /**
     * The loop of backend_xrender_init that creates back buffers `first` to 2,
     * marking each one's age Unknown, and stops at the first failure.
     */
    method CreateBackBuffers(env: InitEnv, first: int) returns (ok: bool)
      requires |env.backPixmaps| == 3 && |env.backPictures| == 3 && 0 <= first <= 3
      requires bufferAge.Length == 3 && back.Length == 3 && backPixmap.Length == 3 && back != backPixmap
      modifies back, backPixmap, bufferAge
      ensures ok == BuffersCreated(env, first)
      ensures ok ==> forall j :: first <= j < 3 ==>
        && backPixmap[j] == env.backPixmaps[j] && back[j] == env.backPictures[j]
        && bufferAge[j] == Presentation.Unknown
      ensures forall j :: 0 <= j < first ==>
        backPixmap[j] == old(backPixmap[j]) && back[j] == old(back[j]) && bufferAge[j] == old(bufferAge[j])
    {
      var i := first;
      while i < 3
        invariant first <= i <= 3
        invariant forall j :: first <= j < i ==>
          && env.backPixmaps[j] != XNone && env.backPictures[j] != XNone
          && backPixmap[j] == env.backPixmaps[j] && back[j] == env.backPictures[j]
          && bufferAge[j] == Presentation.Unknown
        invariant forall j :: 0 <= j < first ==>
          backPixmap[j] == old(backPixmap[j]) && back[j] == old(back[j]) && bufferAge[j] == old(bufferAge[j])
      {
        backPixmap[i] := env.backPixmaps[i];
        back[i] := env.backPictures[i];
        bufferAge[i] := Presentation.Unknown;
        if backPixmap[i] == XNone || back[i] == XNone {
          return false;
        }
        i := i + 1;
      }
      return true;
    }

    /**
     * The part of backend_xrender_init that decides vsync: it needs the Present
     * extension, a successful input selection and a special-event registration.
     */
    method SelectVsync(env: InitEnv)
      modifies this`vsync, this`presentEvent
      ensures vsync == VsyncEnabled(env)
      ensures presentEvent == (env.presentExists && env.specialEventRegistered)
    {
      vsync := env.vsyncConfigured;
      presentEvent := false;
      if env.presentExists {
        if env.selectInputFails {
          vsync := false;
        }
        presentEvent := env.specialEventRegistered;
        if !presentEvent {
          vsync := false;
        }
      } else {
        vsync := false;
      }
    }

    /**
     * backend_xrender_init: fill the alpha-mask table, decide vsync, create
     * the back buffers that are needed and fail (null) if any of them could
     * not be created.
     */
    static method Init(env: InitEnv) returns (xd: Backend?)
      requires |env.backPixmaps| == 3 && |env.backPictures| == 3
      ensures xd == null <==> !BuffersCreated(env, if VsyncEnabled(env) then 0 else Scratch)
      ensures xd != null ==>
        fresh(xd) && fresh(xd.bufferAge) && fresh(xd.back) && fresh(xd.backPixmap) && fresh(xd.alphaPict)
      ensures xd != null ==> xd.Valid()
      ensures xd != null ==> xd.vsync == VsyncEnabled(env)
      ensures xd != null ==> xd.presentEvent == (env.presentExists && env.specialEventRegistered)
      ensures xd != null ==> xd.State() == Presentation.InitialState(VsyncEnabled(env))
      ensures xd != null ==> xd.back[Scratch] == env.backPictures[Scratch] && xd.backPixmap[Scratch] == env.backPixmaps[Scratch]
      ensures xd != null && xd.vsync ==> xd.back[0] == env.backPictures[0] && xd.back[1] == env.backPictures[1]
      ensures xd != null && xd.vsync ==> xd.backPixmap[0] == env.backPixmaps[0] && xd.backPixmap[1] == env.backPixmaps[1]
      ensures xd != null && !xd.vsync ==> xd.back[0] == XNone && xd.back[1] == XNone
      ensures xd != null && !xd.vsync ==> xd.backPixmap[0] == XNone && xd.backPixmap[1] == XNone
      ensures xd != null ==>
        && xd.target == env.target && xd.targetWin == env.targetWin
        && xd.whitePixel == env.whitePixel && xd.blackPixel == env.blackPixel
    {
      xd := new Backend(env);
      xd.SelectVsync(env);

      // Buffers 0 and 1 are the double buffers, needed only with vsync.
      var first := if xd.vsync then 0 else Scratch;
      var ok := xd.CreateBackBuffers(env, first);
      if !ok {
        return null;
      }
      // curr_back = 0 repeats the zero ccalloc already left there.
    }

    /**
     * present: copy `region` of the scratch buffer to the screen. Without vsync
     * it goes straight to the target picture; with vsync it goes into the active
     * back buffer, which is then presented, and `outcome` says what the server
     * answered. `extent` is the bounding box pixman computes for `region`.
     */
    method Present(region: Region, extent: Box, outcome: Presentation.PresentOutcome) returns (reqs: seq<Request>)
      requires Valid() && Encloses(extent, region)
      requires FitsI16(extent.x1) && FitsI16(extent.y1)
      requires FitsU16(extent.x2 - extent.x1) && FitsU16(extent.y2 - extent.y1)
      modifies this`currBack, bufferAge
      ensures Valid()
      ensures State() == Presentation.Step(old(State()), outcome)
      ensures var k, area := old(currBack), Area(extent.x1, extent.y1, extent.x2 - extent.x1, extent.y2 - extent.y1);
        && |reqs| >= 3
        && reqs[..3] == [ClearClip(back[k]), SetClip(back[Scratch], region),
                         Composite(Src, Pict(back[Scratch]), NoPicture, if vsync then back[k] else target,
                                   (extent.x1, extent.y1), area)]
        && (vsync ==> reqs[3..] == [PresentPixmap(targetWin, backPixmap[k])])
        && (!vsync ==> |reqs| == 3)
    {
      var k := currBack;
      var area := Area(extent.x1, extent.y1, extent.x2 - extent.x1, extent.y2 - extent.y1);
      reqs := [ClearClip(back[k]), SetClip(back[Scratch], region)];
      if vsync {
        reqs := reqs + [Composite(Src, Pict(back[Scratch]), NoPicture, back[k], (extent.x1, extent.y1), area),
                        PresentPixmap(targetWin, backPixmap[k])];
        assert reqs[3..] == [PresentPixmap(targetWin, backPixmap[k])];
        RecordOutcome(outcome);
      } else {
        reqs := reqs + [Composite(Src, Pict(back[Scratch]), NoPicture, target, (extent.x1, extent.y1), area)];
      }
    }

    /** What present does with the buffer ages after PresentPixmap, given the server's answer. */
    method RecordOutcome(outcome: Presentation.PresentOutcome)
      requires Valid() && vsync
      modifies this`currBack, bufferAge
      ensures Valid()
      ensures State() == Presentation.Step(old(State()), outcome)
    {
      var k := currBack;
      match outcome
      case RequestError =>
      case NoEvent =>
        bufferAge[0] := Presentation.Unknown;
        bufferAge[1] := Presentation.Unknown;
      case Completed(mode) =>
        bufferAge[k] := 1;
        if bufferAge[1 - k] > 0 {
          bufferAge[1 - k] := bufferAge[1 - k] + 1;
        }
        if mode == ModeFlip {
          currBack := 1 - k;
        }
    }

    /** buffer_age */
    function BufferAge(): (age: int)
      reads this, bufferAge, back, backPixmap, alphaPict
      requires Valid()
      ensures age == Presentation.ReportedAge(State())
      ensures age != 0 && Presentation.AgeSane(age)
    {
      if !vsync then 1 else bufferAge[currBack]
    }

    /** is_image_transparent: an image reported opaque is drawn at full opacity. */
    function IsImageTransparent(img: Image): (t: bool)
      reads img
      ensures t == img.hasAlpha
      ensures img.Valid() && !t ==> img.opacity == 1.0
    {
      img.hasAlpha
    }

    /**
     * compose: clear the image's stale clip, clip the scratch buffer to the
     * painted visible region and composite the image's effective size there.
     */
    method Compose(img: Image, dstX: int, dstY: int, regPaint: Region, regVisible: Region)
      returns (reqs: seq<Request>)
      requires Valid() && img.Valid()
      requires FitsI16(dstX) && FitsI16(dstY) && FitsU16(img.ewidth) && FitsU16(img.eheight)
      ensures |reqs| == 3
      ensures reqs[0] == ClearClip(img.pict)
      ensures reqs[1] == SetClip(back[Scratch], regPaint * regVisible)
      ensures reqs[2].Composite? && reqs[2].src == Pict(img.pict) && reqs[2].dst == back[Scratch]
      ensures reqs[2].op == (if img.hasAlpha then Over else Src)
      ensures reqs[2].srcAt == (0, 0) && reqs[2].area == Area(dstX, dstY, img.ewidth, img.eheight)
      ensures reqs[2].mask.AlphaMask? && 0 <= reqs[2].mask.level <= MaxAlpha
      ensures alphaPict[reqs[2].mask.level] <= img.opacity < alphaPict[reqs[2].mask.level] + 1.0 / MaxAlpha as real
    {
      var op := if img.hasAlpha then Over else Src;
      var level := MaskLevel(img.opacity);
      reqs := [ClearClip(img.pict), SetClip(back[Scratch], regPaint * regVisible),
               Composite(op, Pict(img.pict), AlphaMask(level), back[Scratch], (0, 0),
                         Area(dstX, dstY, img.ewidth, img.eheight))];
    }

    /**
     * bind_pixmap: a new record for `pixmap`, sized by the GetGeometry reply
     * (None when the pixmap is invalid), with `pict` the picture created on it.
     */
    method BindPixmap(pixmap: Xid, fmt: VisualInfo, owned: bool, geometry: Option<Geometry>, pict: Xid)
      returns (img: Image?, reqs: seq<Request>)
      ensures img == null <==> geometry.None? || pict == XNone
      ensures img != null ==>
        && fresh(img) && img.Valid()
        && img.pixmap == pixmap && img.pict == pict && img.owned == owned
        && img.width == img.ewidth == geometry.value.width
        && img.height == img.eheight == geometry.value.height
        && img.opacity == 1.0 && (img.hasAlpha <==> fmt.alphaSize != 0)
        && img.visual == fmt.visual && img.depth == fmt.visualDepth % 256
      ensures geometry.None? ==> reqs == [GetGeometry(pixmap)]
      ensures geometry.Some? ==> reqs == [GetGeometry(pixmap), CreatePicture(fmt.visual, pixmap)]
    {
      reqs := [GetGeometry(pixmap)];
      if geometry.None? {
        return null, reqs;
      }
      var g := geometry.value;
      reqs := reqs + [CreatePicture(fmt.visual, pixmap)];
      if pict == XNone {
        return null, reqs;
      }
      img := new Image(Meta(pixmap, pict, g.width, g.height, g.width, g.height,
                            fmt.alphaSize != 0, 1.0, fmt.visual, fmt.visualDepth % 256, owned));
    }

    /** release_image: free the picture, and the pixmap only when the backend owns it. */
    method ReleaseImage(img: Image) returns (reqs: seq<Request>)
      ensures |reqs| >= 1 && reqs[0] == FreePicture(img.pict)
      ensures FreePixmap(img.pixmap) in reqs <==> img.owned
      ensures reqs == ReleaseRequests(img.Data())
    {
      reqs := [FreePicture(img.pict)];
      if img.owned {
        reqs := reqs + [FreePixmap(img.pixmap)];
      }
    }

    /**
     * image_op. `tmpPict` is the picture the server returns when INVERT_COLOR_ALL
     * creates its temporary copy of an image with alpha.
     */
    method ImageOp(op: ImageOperation, img: Image, regOp: Option<Region>, regVisible: Region, tmpPict: Xid)
      returns (ok: bool, reqs: seq<Request>)
      requires Valid() && img.Valid()
      requires Supported(op) && (op.ApplyAlpha? ==> regOp.Some?)
      modifies img
      ensures ok && img.Valid()
      ensures img.Data() == AfterOp(old(img.Data()), op, regOp, regVisible)
      ensures op.ApplyAlphaAll? || op.ResizeTile? ==> reqs == []
      ensures op.ApplyAlpha? ==>
        if ApplyAlphaTakesEffect(op.factor, regOp.value, regVisible) then
          reqs == [SetClip(img.pict, regOp.value * regVisible),
                   Composite(OutReverse, AlphaMask(MaskLevel(1.0 - op.factor)), NoPicture, img.pict,
                             (0, 0), Area(0, 0, img.width, img.height))]
        else reqs == []
      ensures op.DimAll? ==>
        reqs == [SetClip(img.pict, regVisible),
                 FillRectangle(Over, img.pict, op.dim, Area(0, 0, img.width, img.height))]
      ensures op.InvertColorAll? && !img.hasAlpha ==>
        reqs == [SetClip(img.pict, regVisible),
                 Composite(Difference, Pict(whitePixel), NoPicture, img.pict, (0, 0), Area(0, 0, img.width, img.height))]
      ensures op.InvertColorAll? && img.hasAlpha ==>
        reqs == [SetClip(img.pict, regVisible),
                 CreatePictureWithVisual(img.visual, img.width, img.height),
                 Composite(Src, Pict(img.pict), NoPicture, tmpPict, (0, 0), Area(0, 0, img.width, img.height)),
                 Composite(Difference, Pict(whitePixel), NoPicture, img.pict, (0, 0), Area(0, 0, img.width, img.height)),
                 Composite(InReverse, Pict(tmpPict), NoPicture, img.pict, (0, 0), Area(0, 0, img.width, img.height)),
                 FreePicture(tmpPict)]
    {
      ok := true;
      reqs := [];
      if op.ApplyAlphaAll? {
        assert 0.0 <= img.opacity * op.factor <= img.opacity;
        img.opacity := img.opacity * op.factor;
        img.hasAlpha := true;
        return;
      }
      var whole := Area(0, 0, img.width, img.height);
      match op {
        case InvertColorAll =>
          reqs := [SetClip(img.pict, regVisible)];
          if img.hasAlpha {
            reqs := reqs + [CreatePictureWithVisual(img.visual, img.width, img.height),
                            Composite(Src, Pict(img.pict), NoPicture, tmpPict, (0, 0), whole),
                            Composite(Difference, Pict(whitePixel), NoPicture, img.pict, (0, 0), whole),
                            Composite(InReverse, Pict(tmpPict), NoPicture, img.pict, (0, 0), whole),
                            FreePicture(tmpPict)];
          } else {
            reqs := reqs + [Composite(Difference, Pict(whitePixel), NoPicture, img.pict, (0, 0), whole)];
          }
        case DimAll(dim) =>
          reqs := [SetClip(img.pict, regVisible), FillRectangle(Over, img.pict, dim, whole)];
        case ApplyAlpha(factor) =>
          var reg := regOp.value * regVisible;
          if reg != {} && factor != 1.0 {
            var level := MaskLevel(1.0 - factor);
            reqs := [SetClip(img.pict, reg),
                     Composite(OutReverse, AlphaMask(level), NoPicture, img.pict, (0, 0), whole)];
            img.hasAlpha := true;
          }
        case ResizeTile(w, h) =>
          img.ewidth := w;
          img.eheight := h;
      }
    }

    /**
     * copy: a new, backend-owned pixmap of the source's native size holding the
     * source's visible pixels with its opacity baked in. `newPixmap` and
     * `newPict` are the ids the creation requests returned.
     */
    method Copy(img: Image, reg: Region, newPixmap: Xid, newPict: Xid) returns (r: Image?, reqs: seq<Request>)
      requires Valid() && img.Valid() && img.visual != XNone
      ensures r == null <==> newPixmap == XNone || newPict == XNone
      ensures r != null ==>
        && fresh(r) && r.Valid()
        && r.Data() == CopiedMeta(img.Data(), newPixmap, newPict)
      ensures |reqs| >= 2 && reqs[..2] == [SetClip(img.pict, reg), CreatePixmap(img.depth, img.width, img.height)]
      ensures newPixmap == XNone ==> |reqs| == 2
      ensures newPixmap != XNone ==> |reqs| == 4 && reqs[2] == CreatePicture(img.visual, newPixmap)
      ensures newPixmap != XNone && newPict == XNone ==> reqs[3] == FreePixmap(newPixmap)
      ensures r != null ==>
        reqs[3] == Composite(Src, Pict(img.pict),
                             if img.opacity == 1.0 then NoPicture else AlphaMask(MaskLevel(img.opacity)),
                             newPict, (0, 0), Area(0, 0, img.width, img.height))
    {
      reqs := [SetClip(img.pict, reg), CreatePixmap(img.depth, img.width, img.height)];
      if newPixmap == XNone {
        return null, reqs;
      }
      reqs := reqs + [CreatePicture(img.visual, newPixmap)];
      if newPict == XNone {
        reqs := reqs + [FreePixmap(newPixmap)];
        return null, reqs;
      }
      var mask := if img.opacity == 1.0 then NoPicture else AlphaMask(MaskLevel(img.opacity));
      reqs := reqs + [Composite(Src, Pict(img.pict), mask, newPict, (0, 0), Area(0, 0, img.width, img.height))];
      r := new Image(CopiedMeta(img.Data(), newPixmap, newPict));
    }
  }
}

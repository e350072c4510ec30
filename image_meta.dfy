/**
 * The metadata the xrender backend keeps per image (struct
 * _xrender_image_data) and how image_op changes it. The pixels themselves live
 * in the X server; only the record is modelled here.
 */
module ImageMeta {
  import opened X
  import opened BackendCommon

  /** MAX_ALPHA: the highest index of the alpha-mask table. */
  const MaxAlpha: int := 255

  /**
   * One image record: the pixmap and the picture bound to it, the native and
   * the effective (tiling) size, whether it needs alpha blending, the opacity
   * to apply when composing, the visual and depth of the pixmap, and whether
   * the backend must free the pixmap on release.
   */
  datatype Meta = Meta(
    pixmap: Xid, pict: Xid,
    width: int, height: int,
    ewidth: int, eheight: int,
    hasAlpha: bool, opacity: real,
    visual: Xid, depth: int,
    owned: bool)

  /**
   * The native size comes from a GetGeometry reply, the opacity is a fraction,
   * and an image not marked as needing blending is fully opaque (every way of
   * lowering the opacity also sets has_alpha).
   */
  ghost predicate ValidMeta(m: Meta)
  {
    && FitsU16(m.width) && FitsU16(m.height) && 0.0 <= m.opacity <= 1.0
    && (!m.hasAlpha ==> m.opacity == 1.0)
  }

  /**
   * The index into the alpha-mask table for opacity `o`, computed as
   * (int)(o * MAX_ALPHA): the mask of level i has alpha i / MAX_ALPHA, so the
   * chosen mask is the one just at or below `o`.
   */
  function MaskLevel(o: real): (level: int)
    requires 0.0 <= o <= 1.0
    ensures 0 <= level <= MaxAlpha
    ensures level as real / MaxAlpha as real <= o < (level + 1) as real / MaxAlpha as real
  {
    var level := (o * MaxAlpha as real).Floor;
    assert level as real <= o * MaxAlpha as real < level as real + 1.0;
    level
  }

  /**
   * The operations image_op accepts: MAX_BRIGHTNESS aborts, and an alpha factor
   * outside [0, 1] would index past the alpha-mask table or push the opacity
   * out of [0, 1].
   */
  predicate Supported(op: ImageOperation)
  {
    match op
    case MaxBrightness => false
    case ApplyAlpha(f) => 0.0 <= f <= 1.0
    case ApplyAlphaAll(f) => 0.0 <= f <= 1.0
    case _ => true
  }

  /** APPLY_ALPHA changes something only on a non-empty op-and-visible region with a factor other than 1. */
  predicate ApplyAlphaTakesEffect(factor: real, regOp: Region, regVisible: Region)
  {
    regOp * regVisible != {} && factor != 1.0
  }

  /** The record after image_op. */
  function AfterOp(m: Meta, op: ImageOperation, regOp: Option<Region>, regVisible: Region): (r: Meta)
    requires Supported(op) && (op.ApplyAlpha? ==> regOp.Some?)
    ensures r.(ewidth := m.ewidth, eheight := m.eheight, hasAlpha := m.hasAlpha, opacity := m.opacity) == m
    ensures m.hasAlpha ==> r.hasAlpha
    ensures 0.0 <= m.opacity ==> r.opacity <= m.opacity
    ensures ValidMeta(m) ==> ValidMeta(r)
  {
    match op
    case ApplyAlphaAll(f) =>
      assert 0.0 <= m.opacity ==> m.opacity * f <= m.opacity;
      m.(opacity := m.opacity * f, hasAlpha := true)
    case ApplyAlpha(f) =>
      if ApplyAlphaTakesEffect(f, regOp.value, regVisible) then m.(hasAlpha := true) else m
    case ResizeTile(w, h) => m.(ewidth := w, eheight := h)
    case InvertColorAll => m
    case DimAll(_) => m
  }

  /**
   * APPLY_ALPHA_ALL twice multiplies the opacity by both factors (0.5 twice
   * leaves a quarter) and leaves the image marked transparent.
   */
  lemma ApplyAlphaAllComposes(m: Meta, a: real, b: real)
    requires 0.0 <= a <= 1.0 && 0.0 <= b <= 1.0
    ensures var r := AfterOp(AfterOp(m, ApplyAlphaAll(a), None, {}), ApplyAlphaAll(b), None, {});
      && r.opacity == m.opacity * a * b
      && r.hasAlpha
      && (a == 0.5 && b == 0.5 ==> r.opacity == m.opacity * 0.25)
  {
  }

  /**
   * APPLY_ALPHA leaves the record alone when the op region misses the visible
   * region or the factor is 1, even when the image was opaque; otherwise it
   * only marks the image transparent.
   */
  lemma ApplyAlphaEffect(m: Meta, f: real, regOp: Region, regVisible: Region)
    requires 0.0 <= f <= 1.0
    ensures var r := AfterOp(m, ApplyAlpha(f), Some(regOp), regVisible);
      && (!ApplyAlphaTakesEffect(f, regOp, regVisible) ==> r == m)
      && (ApplyAlphaTakesEffect(f, regOp, regVisible) ==> r == m.(hasAlpha := true))
  {
  }

  /** RESIZE_TILE changes the effective size and nothing else. */
  lemma ResizeTileOnlyEffectiveSize(m: Meta, w: int, h: int)
    ensures var r := AfterOp(m, ResizeTile(w, h), None, {});
      r.ewidth == w && r.eheight == h && r.(ewidth := m.ewidth, eheight := m.eheight) == m
  {
  }

  /** The record copy makes: the source's record on a new, owned pixmap with the opacity baked in. */
  function CopiedMeta(m: Meta, pixmap: Xid, pict: Xid): (r: Meta)
    ensures r.pixmap == pixmap && r.pict == pict && r.opacity == 1.0 && r.owned
    ensures r.(pixmap := m.pixmap, pict := m.pict, opacity := m.opacity, owned := m.owned) == m
    ensures ValidMeta(m) ==> ValidMeta(r)
  {
    m.(pixmap := pixmap, pict := pict, opacity := 1.0, owned := true)
  }

  /** The requests release_image issues: the picture always, the pixmap only when owned. */
  function ReleaseRequests(m: Meta): (reqs: seq<Request>)
    ensures |reqs| == (if m.owned then 2 else 1) && reqs[0] == FreePicture(m.pict)
    ensures FreePixmap(m.pixmap) in reqs <==> m.owned
  {
    [FreePicture(m.pict)] + if m.owned then [FreePixmap(m.pixmap)] else []
  }

  /**
   * Releasing a copy frees exactly the picture and the pixmap copy created.
   * Releasing both the source and its copy frees the source's pixmap only when
   * the source owned it (or the server reused its id for the copy), so copying
   * a borrowed image never frees the client's pixmap.
   */
  lemma ReleaseOfCopyFreesWhatCopyCreated(m: Meta, pixmap: Xid, pict: Xid)
    ensures ReleaseRequests(CopiedMeta(m, pixmap, pict)) == [FreePicture(pict), FreePixmap(pixmap)]
    ensures FreePixmap(m.pixmap) in ReleaseRequests(m) + ReleaseRequests(CopiedMeta(m, pixmap, pict))
      <==> m.owned || m.pixmap == pixmap
  {
  }

  /** Inverting and dimming change pixels in the server, not the record. */
  lemma PixelOpsKeepRecord(m: Meta, d: real, regOp: Option<Region>, regVisible: Region)
    ensures AfterOp(m, InvertColorAll, regOp, regVisible) == m
    ensures AfterOp(m, DimAll(d), regOp, regVisible) == m
  {
  }
}

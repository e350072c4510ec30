# picom rendering backends: image bookkeeping and presentation

This project models two of picom's rendering backends in Dafny.

The **dummy backend** draws nothing. It keeps a table of the images it handed
out, keyed by X pixmap, with a shared reference count per image. Compose,
image_op, is_image_transparent and copy look the image's pixmap up in the
table and check that its count is positive (dummy_check_image). Release does
no lookup: it only asserts, through the image, that the count is positive. The model is the class `Dummy.Backend`:

- a `map` from pixmap to record replaces the hash table;
- a ghost history of binds, copies and releases records what callers did;
- the invariant says that replaying that history gives the table.

The lemmas then say what the table means for any history. A pixmap has a
record exactly when its binds plus copies minus releases is positive. The
record's count is that number. Its transparency comes from the bind that
opened its current lifetime. A history runs without tripping an assertion
exactly when every copy and release finds a live reference.

The **xrender backend** composes window images into a scratch buffer with the
X RENDER extension. It then presents the result in one of two ways:

- straight onto the target window;
- with vsync, through one of two back buffers and the Present extension.

The model has three parts:

- `Presentation` is the buffer-age bookkeeping of present, buffer_age and
  init as a pure state machine.
- `ImageMeta` is the per-image record and how image_op, copy and release
  treat it.
- `XRender` holds the imperative classes. `XRender.Image` is the image
  record, updated in place by image_op. `XRender.Backend` holds vsync,
  curr_back and the arrays buffer_age, back, back_pixmap and the alpha-mask
  table. Its methods are proved against the `Presentation` and `ImageMeta`
  functions.

X requests are not executed. Every xrender operation except init returns the
requests it issues as a list of `X.Request` values. The server's answers are parameters:
new resource ids (`XNone` on failure), the GetGeometry reply, and the outcome
of a vsync present (request error, no event, or a completion with its mode).
For the ages of the two double buffers there is a reference meaning. For
each buffer, it counts the frames presented since that buffer was last shown,
or gives -1 when that is unknown. `Presentation.ReportedAgeIsFramesSinceShown`
proves that buffer_age reports exactly this after any sequence of presents.

Facts about the code that the model makes visible:

- The alpha-mask index is `(int)(opacity * MAX_ALPHA)`
  (src/backend/xrender/xrender.c:43), which truncates. So `ImageMeta.MaskLevel`
  picks the mask at or just below the opacity.
- When a back-buffer allocation fails, init calls deinit
  (src/backend/xrender/xrender.c:409-411). deinit (lines 114-131) never frees
  `back[2]` or `back_pixmap[2]`. So a failed init whose scratch pixmap was
  created, but whose picture was not, leaks that pixmap. On that path deinit
  also frees ids that are still `XCB_NONE`: `root_pict`, and every double
  buffer not yet created when the failure happened (both when vsync is off).
- Without vsync, init never creates back buffers 0 and 1, and
  `XRender.Backend.Init` states that they stay `XNone`. Present still clears
  the clip of `back[curr_back]`. So in that mode its first request
  (`XRender.Backend.Present`) is a ClearClip on `XNone`.
- buffer_age is not bounded by max_buffer_age (2).
  `XRender.ReportedAgeMayExceedMaxBufferAge` exhibits an age of 4.

Files:

- `x.dfy`: the X protocol vocabulary.
- `backend_common.dfy`: Option, colours and image operations.
- `dummy.dfy`: the dummy backend.
- `presentation.dfy`: the present state machine.
- `image_meta.dfy`: the image record.
- `xrender.dfy`: the xrender classes.

## Model

| member | source | states |
|---|---|---|
| Dummy.ReplayTracksNetCount | src/backend/dummy/dummy.c:74-99 | for any history the table can replay: a pixmap has a record iff binds+copies−releases of it is positive; the record's refcount equals that number; its transparency is that of the bind that opened its current lifetime; every stored refcount is positive |
| Dummy.ReplayDefinedIffDisciplined | src/backend/dummy/dummy.c:49-58 | a sequence of binds, copies and releases trips no assertion iff every copy and release is of a pixmap that holds a live reference at that point |
| Dummy.Backend.constructor | src/backend/dummy/dummy.c:29-36 | a new backend has an empty table and an empty history |
| Dummy.Backend.IsLive | src/backend/dummy/dummy.c:49-58 | a handle passes the check iff its pixmap has a record with a positive count; under the table invariant the lookup alone decides it, so the count assertion cannot fail after a successful lookup |
| Dummy.Backend.LiveIffReferenced | src/backend/dummy/dummy.c:49-58 | under the table invariant a handle passes the check iff its pixmap's binds plus copies minus releases is positive |
| Dummy.Backend.BindPixmap | src/backend/dummy/dummy.c:70-88 | an unregistered pixmap gets one new record with refcount 1 and transparent iff alpha_size != 0; a registered one keeps its record and transparency with the refcount raised by 1; no other record changes; the invariant is kept |
| Dummy.Backend.ReleaseImage | src/backend/dummy/dummy.c:90-100 | requires a live handle; the refcount drops by 1 and the record is removed exactly when it reaches 0; other records are untouched; the invariant is kept |
| Dummy.Backend.Copy | src/backend/dummy/dummy.c:119-125 | requires a live handle; returns the same handle (the same record, not a new one) with its refcount raised by 1 and nothing else changed |
| Dummy.Backend.IsImageTransparent | src/backend/dummy/dummy.c:102-106 | requires a live handle; answers the transparency given by the bind that opened the image's current lifetime, whatever later binds passed |
| Dummy.Backend.Compose | src/backend/dummy/dummy.c:60-64 | requires a live handle and changes no record |
| Dummy.Backend.Fill | src/backend/dummy/dummy.c:66-68 | changes no record |
| Dummy.Backend.ImageOp | src/backend/dummy/dummy.c:112-117 | requires a live handle and reports success |
| Dummy.Backend.BufferAge | src/backend/dummy/dummy.c:108-110 | the age is always 2, within the backend's maximum of 5 |
| Dummy.Backend.Deinit | src/backend/dummy/dummy.c:38-47 | one leak report per pixmap still registered, each reported once, and the table ends empty |
| Presentation.InitialState | src/backend/xrender/xrender.c:384-399 | after init the active slot is 0; with vsync, slots 0 and 1 start Unknown (-1); the state is well formed and its ages are sane |
| Presentation.Step | src/backend/xrender/xrender.c:146-193 | one present keeps the state well formed, keeps vsync and the scratch buffer's age, and keeps every vsync slot age Unknown or positive |
| Presentation.ReportedAge | src/backend/xrender/xrender.c:196-204 | buffer_age is 1 without vsync and the active slot's age with it, and is Unknown or positive whenever the slots are |
| Presentation.PresentCompleted | src/backend/xrender/xrender.c:177-186 | after a completion the shown slot's age is 1; the other slot ages by one iff its age was positive; the active slot toggles iff the mode is Flip |
| Presentation.PresentRequestErrorKeepsState | src/backend/xrender/xrender.c:154-163 | a failed PresentPixmap leaves ages and the active slot unchanged |
| Presentation.PresentLostEventResetsAges | src/backend/xrender/xrender.c:165-173 | when no completion event arrives both slot ages become -1 and the active slot is unchanged |
| Presentation.PresentWithoutVsyncKeepsState | src/backend/xrender/xrender.c:188-193 | without vsync present changes no age and not the active slot, and buffer_age stays 1 |
| Presentation.FirstPresentAfterInit | src/backend/xrender/xrender.c:177-186 | the first completed present after a vsync init makes slot 0 one frame old and leaves slot 1 Unknown, so the next age is Unknown after a flip and 1 after a copy |
| Presentation.Run | src/backend/xrender/xrender.c:133-194 | any sequence of presents keeps vsync and keeps every slot age Unknown or positive |
| Presentation.FramesSince | src/backend/xrender/xrender.c:179-182 | the reference age: frames since a slot was last shown, never 0, and -1 exactly when it was never shown since the last reset |
| Presentation.StepFollowsHistory | src/backend/xrender/xrender.c:165-186 | one present keeps each slot's age equal to the frames since that slot was last shown |
| Presentation.RunFollowsHistory | src/backend/xrender/xrender.c:133-194 | any sequence of presents keeps each slot's age equal to the frames since that slot was last shown |
| Presentation.ReportedAgeIsFramesSinceShown | src/backend/xrender/xrender.c:196-204 | after a vsync init and any presents, buffer_age equals the frames since the buffer about to be drawn into was last shown (or -1), and is never 0 |
| ImageMeta.MaskLevel | src/backend/xrender/xrender.c:43 | the alpha-mask index for an opacity in [0,1] lies in [0,255] and selects the mask whose alpha is at or just below the opacity (truncation) |
| ImageMeta.AfterOp | src/backend/xrender/xrender.c:211-294 | image_op changes only the effective size, has_alpha and opacity; has_alpha is never cleared; opacity never rises; a valid record stays valid |
| ImageMeta.ApplyAlphaAllComposes | src/backend/xrender/xrender.c:218-222 | APPLY_ALPHA_ALL multiplies the opacity by its factor and sets has_alpha; two applications multiply by both factors (0.5 twice leaves a quarter) |
| ImageMeta.ApplyAlphaEffect | src/backend/xrender/xrender.c:268-284 | APPLY_ALPHA leaves the record unchanged when op∩visible is empty or the factor is 1, and otherwise only sets has_alpha |
| ImageMeta.ResizeTileOnlyEffectiveSize | src/backend/xrender/xrender.c:285-288 | RESIZE_TILE sets ewidth/eheight to its arguments and changes nothing else |
| ImageMeta.PixelOpsKeepRecord | src/backend/xrender/xrender.c:229-267 | INVERT_COLOR_ALL and DIM_ALL leave the record unchanged |
| ImageMeta.CopiedMeta | src/backend/xrender/xrender.c:303-308 | a copy keeps every field of the source except a new pixmap and picture, opacity 1 and owned |
| ImageMeta.ReleaseRequests | src/backend/xrender/xrender.c:105-112 | release frees the picture first and frees the pixmap iff the record is owned |
| ImageMeta.ReleaseOfCopyFreesWhatCopyCreated | src/backend/xrender/xrender.c:297-321 | releasing a copy frees exactly the picture and pixmap the copy created; releasing the source and its copy frees the source's pixmap iff the source owned it or the copy reused its id |
| XRender.ReportedAgeMayExceedMaxBufferAge | src/backend/xrender/xrender.c:177-186 | from a vsync init, the completions Flip, Copy, Copy, Flip make buffer_age report 4, above max_buffer_age 2 (xrender.c:427) |
| XRender.Backend.constructor | src/backend/xrender/xrender.c:332-352 | the zeroed record with the target, target window, black and white pixels set and mask i of the alpha table at alpha i/255 |
| XRender.Backend.FillAlphaTable | src/backend/xrender/xrender.c:335-339 | mask picture i gets alpha i/MAX_ALPHA for every i in [0,255] |
| XRender.Backend.SelectVsync | src/backend/xrender/xrender.c:360-382 | vsync stays on iff configured, Present exists, select-input succeeded and event registration succeeded; the event registration is kept iff Present exists and it succeeded |
| XRender.Backend.CreateBackBuffers | src/backend/xrender/xrender.c:386-398 | succeeds iff every buffer from the first needed one to the scratch buffer got a pixmap and a picture; on success those buffers hold the new ids and age -1; buffers below the first are untouched |
| XRender.Backend.Init | src/backend/xrender/xrender.c:331-412 | returns null iff a needed back buffer could not be created; otherwise a fresh valid backend whose vsync is the conjunction above, in the initial present state, with the scratch picture and pixmap from the server, the double-buffer pictures and pixmaps the server created when vsync is on, and all four `XNone` when it is off |
| XRender.Backend.Present | src/backend/xrender/xrender.c:133-194 | clears the active buffer's clip, clips the scratch buffer to the region and copies the region's extent to the active back buffer (vsync) or the target; with vsync it presents that buffer's pixmap; the bookkeeping follows Presentation.Step and the invariant is kept |
| XRender.Backend.RecordOutcome | src/backend/xrender/xrender.c:159-187 | the ages and active slot after the server's answer to PresentPixmap are those of Presentation.Step |
| XRender.Backend.BufferAge | src/backend/xrender/xrender.c:196-204 | reports Presentation.ReportedAge of the current state, which is never 0 and is -1 or positive |
| XRender.Backend.IsImageTransparent | src/backend/xrender/xrender.c:206-209 | an image is reported transparent iff it has alpha, and an image reported opaque has opacity 1 |
| XRender.Backend.Compose | src/backend/xrender/xrender.c:38-57 | clears the image's clip, clips the scratch buffer to paint∩visible, and composites the image's effective size at the destination with OVER iff the image has alpha (SRC otherwise), through the alpha mask at or just below its opacity |
| XRender.Backend.BindPixmap | src/backend/xrender/xrender.c:77-103 | null iff the geometry query or the picture creation failed; otherwise a fresh valid record with width=ewidth and height=eheight from the geometry, opacity 1, has_alpha iff alpha_size != 0, owned as passed, depth truncated to 8 bits |
| XRender.Backend.ReleaseImage | src/backend/xrender/xrender.c:105-112 | frees the picture, and the pixmap iff the record is owned |
| XRender.Backend.ImageOp | src/backend/xrender/xrender.c:211-294 | always succeeds; the record becomes ImageMeta.AfterOp of the old one; each operation issues its documented requests (none for APPLY_ALPHA_ALL, RESIZE_TILE or an ineffective APPLY_ALPHA) |
| XRender.Backend.Copy | src/backend/xrender/xrender.c:297-329 | null iff the pixmap or the picture could not be created, and the new pixmap is freed when only the picture failed; otherwise a fresh valid record given by ImageMeta.CopiedMeta, filled by compositing the source with the mask for its opacity (no mask at opacity 1) |

## Left out

- X requests are not sent: operations return the requests they would issue, and the server's replies, errors and events are parameters. The blocking wait for a Present special event is one of three outcomes (request error, no event, completion with a mode); the assertion that the event is a CompleteNotify is taken as given.
- pixman regions are sets of pixels; intersection and emptiness are set operations, and the extents pixman computes are a parameter required to enclose the region.
- Pixel-level results of composite, fill and invert are not modelled; only which requests are issued and on which pictures.
- Floating point: opacity, alpha factors and mask alphas are exact reals. The alpha-mask index is the floor of opacity × 255 on reals. The DIM_ALL alpha and the colour channels are not converted to 16-bit values.
- to_i16_checked and to_u16_checked become preconditions that the value fits.
- XRender.Backend.ImageOp: MAX_BRIGHTNESS (which aborts) and alpha factors outside [0, 1] (which would index past the mask table) are excluded by a precondition instead of being modelled as aborts.
- XRender.Backend.Init: it returns no request log. The results of its requests are the `InitEnv` inputs: the target picture, the black and white pixels, the outcome of the Present input selection and event registration, and the back-buffer pixmaps and pictures.
- XRender.Backend.Init: the cleanup deinit performs on the error path is not modelled, nor the abort when the default visual has no picture format, nor the root-background picture and its fallback.
- XRender.Backend.FillAlphaTable: the 256 alpha-mask pictures are kept as their alpha values, and requests name a mask by its level (`X.AlphaMask`). Their creation is taken to succeed, so the source's assertion that each mask picture is not `XCB_NONE` is not modelled.
- The xrender backend's fill and deinit are not modelled; fill keeps no state and deinit only frees resources.
- default_backend_render_shadow, init_backend_base, solid_picture, x_get_root_back_pixmap and session_get_target_window are not part of this model. The ids they produce are inputs, except the alpha-mask pictures, which are named by level.
- The header that declares struct _xrender_data is not part of this model. buffer_age, back and back_pixmap are taken to hold three entries, since init writes index 2 of each.
- Memory: free() of records, the hash table's internals and logging are left out. An xrender image object stays allocated after release, so use after release is not modelled.
- Dummy.Backend.ReleaseImage: requires a live handle. The source does no lookup. It only asserts through the image's pointer, and reaches freed memory when the image was already released.
- The dummy backend's handle is the pixmap. A live record and its handle determine each other, but a stale handle cannot be represented. In the source, a released handle whose pixmap has since been bound again passes dummy_check_image, because the lookup by pixmap finds the new record. So the model neither states nor refutes that use after release is caught.
- Presentation.Step, XRender.Backend.RecordOutcome: buffer ages are unbounded integers. In the source `buffer_age[1 - curr_back]++` is a C `int`. After a flip and about 2^31 copy-mode completions it overflows, which is undefined behaviour and in practice wraps negative. A later flip would then report a negative age that is not -1. The model's "never 0, -1 or positive" holds only without that overflow. Reaching it takes more frames than any session presents.
- Dummy.Step, Dummy.Backend.BindPixmap, Dummy.Backend.Copy: reference counts are unbounded integers. In the source they are C `int`s and would overflow after 2^31 references to one image.

# Nexterm client models

Models of the state and the arithmetic behind the Nexterm GPU terminal client, with proofs about
them. Each part follows one component of the repository.

- **Glyph atlas** (`LruCache`, `AtlasModel`, `AtlasRuns`, `AtlasRecency`, `AtlasPacking`, `AtlasGrowth`,
  `GlyphAtlas`, `PaneCache`, `FrameDrawing`, `FrameContents`, `CacheFailures`). A shelf allocator over one square texture, shared by a glyph cache and a
  ligature cache with area budgets, reset on overflow, and growth. `GlyphAtlas` is the object
  updated in place; each method equals a step of `AtlasModel`, and `AtlasRuns` proves what holds
  over every run; `AtlasRecency`, `AtlasPacking` and `AtlasGrowth` add the order in which keys are
  dropped, how many glyphs fit, and how large the atlas becomes. `PaneCache`, `FrameDrawing`,
  `FrameContents` and `CacheFailures` add the renderer's reuse of pane vertex batches across frames.
- **IPC connection** (`Framing`, `Connection`). Little-endian length-prefixed frames, the receive and
  send loops, and a step system of bounded channels, portions of bytes and task failures.
- **Accessibility tree** (`NodeIds`, `Utf8`, `AccessModel`, `AccessTree`, `RootedTree`,
  `AccessFocus`, `AccessBuilder`). The numeric identifiers of nodes, and the tree update built from the client
  state.
- **Command blocks** (`CommandBlocks`, `BlockViews`). The fold of OSC 133 marks into blocks, block
  navigation, and the views that must agree: overlay, look-up, collapsing, click resolution.
- **Scrollback** (`Scrollback`). The ring buffer and its cyclic searches.
- **Colour, cursor, chrome text** (`ColorUtil`, `CursorMotion`, `ChromeModel`, `ChromeText`). HSV
  transforms, eased cursor motion over runs of reports, memoised measuring and greedy truncation, all
  over exact reals.

Where the source updates something in place, a class or a loop is proved against a function on
values, and the theorems are about that function.

## What the proofs found

- **Area tallies** drift: a capacity shrink evicts entries without giving their area back, so the
  tally overstates by exactly that area until the next reset (`AtlasRuns.TallyOverRun`). The budget is
  still met, with earlier evictions than needed; `AtlasRuns.ShrinkLeavesTallyInexact` is an example.
- **Pane batches** are purged only right after the panes are drawn. When an overlay drawn later
  overflows the atlas, the next frame reuses a batch over overwritten pixels, although the field's
  comment says entries are invalidated on any reset (`CacheFailures.OverlayOverflowCorruptsPane`). Kept
  batches go out of date exactly when an overlay glyph meets the guard of the reset
  (`PaneCache.CacheTrustedIff`).
- **An overflow late in a frame** spoils that frame itself: uploads and draws are submitted together, so
  a glyph that overflows overwrites what the frame drew before it, kept batches included
  (`CacheFailures.LateOverflowCorruptsFrame`). The atlas documents that a reset forces a redraw of the next
  frame; the flag only decides which batches are reused, and nothing asks for that frame. A frame in
  which no glyph overflows is right, and displays every glyph asked for (`FrameDrawing.FrameShowsRight`,
  `FrameContents.FramesDisplayAll`).
- **Frame headers** wrap at 4 GiB, since the sender casts without a check. A payload of at least 4 GiB
  whose length wraps to an accepted one makes the receiver lose its place; all others are delivered in
  order or refused (`Connection.DeliveredUpToUnsafe`, `Connection.UnsafeLengthBreaksPrefix`).
- **The 64 MiB limit** is documented as leaving room for the metadata of the largest image, but such a
  message is over the limit and refused (`Framing.LargestImageIsRefused`).
- **Scrollback for screen readers** is cut at row 9000 from the oldest end: near the newest rows of a
  longer history the exposed window shrinks, and from row 9100 it is empty
  (`RootedTree.WindowCoversScrollPosition`, `RootedTree.LongHistoryIsSilent`).
- **Collapsed blocks**: when a block ends on the row where the next one starts, collapsing it hides that
  prompt as well (`BlockViews.PromptHiddenIff`, `BlockViews.CollapsingHidesNextPrompt`).
- **Block navigation** loops when two blocks share an id, that is when they start on the same row of a
  pane modulo 2^32 (`CommandBlocks.WalkVisitsAllIffDistinct`, `CommandBlocks.BlockIdsCollide`,
  `CommandBlocks.SharedIdTrapsWalk`).
- **HSV conversion** takes a channel within 1e-6 of the maximum for the maximum, and returns a different
  colour exactly when it is not (`ColorUtil.RoundTripIffFaithful`, `ColorUtil.NearTieReturnsDifferent`).
- **Chrome widths** are memoised under the rounded size, so a memo shared by two display scales could
  answer with the width of another size (`ChromeModel.FractionalSizesCollide`). The program never
  shares one: a change of scale builds a new font manager, and the scale set at start-up precedes any
  measuring. At one scale the memo is exact for the type ramp (`ChromeModel.RampIsExact`).
- **A zero-capacity scrollback** divides by zero on its first push; `PushLine` therefore requires a
  positive capacity, which resizing guarantees (`Scrollback.DividesByZeroIff`).

## Model

| member | source | states |
|---|---|---|
| LruCache.InsertWithAreaBudget | nexterm-client-gpu/src/glyph_atlas.rs:208-225 | The eviction loop computes push-then-trim: the cache and the tally it returns are those of `Admit` |
| LruCache.RectAreaIsProduct | nexterm-client-gpu/src/glyph_atlas.rs:188-192 | The area charged for a rectangle is width times height |
| LruCache.AdmitSpec | nexterm-client-gpu/src/glyph_atlas.rs:208-225 | The tally keeps its distance from the true footprint; what survives is a most recent part of the pushed cache; the budget is met or one entry is left; keeping one entry more would have broken the budget |
| LruCache.AdmitKeepsRecent | nexterm-client-gpu/src/glyph_atlas.rs:208-225 | For a key that was absent: the survivors are exactly the most recently used entries followed by the new one, and the tally never understates them |
| LruCache.AdmitValid | nexterm-client-gpu/src/glyph_atlas.rs:208-225 | The new entry is cached last with its own rectangle, keys stay distinct, nothing else appears |
| LruCache.PromoteSpec | nexterm-client-gpu/src/glyph_atlas.rs:414-416 | A hit keeps the entries, the length and distinct keys, and puts the touched one last |
| LruCache.PromoteKeepsOrder | nexterm-client-gpu/src/glyph_atlas.rs:414-416 | Two entries that a hit does not touch stay in the order they were in |
| LruCache.PromoteArea | nexterm-client-gpu/src/glyph_atlas.rs:414-416 | A hit leaves the cached area unchanged |
| LruCache.ResizeSpec | nexterm-client-gpu/src/glyph_atlas.rs:391-403 | A capacity change keeps exactly the most recent entries that fit and never adds area |
| AtlasModel.WithSizeInv | nexterm-client-gpu/src/glyph_atlas.rs:290-343 | A new atlas satisfies the invariant of cursor, caches, tallies and texture, whatever its side |
| AtlasModel.NewWithConfigInv | nexterm-client-gpu/src/glyph_atlas.rs:277-287 | A newly configured atlas satisfies the invariant, with a side of at least 1024 and at most the maximum |
| AtlasModel.WithSizeBudget | nexterm-client-gpu/src/glyph_atlas.rs:290-343 | A fresh atlas of side n has a budget of n * n less the icon reservation, and in each cache room for one entry per 64 texels, 256 at least |
| AtlasModel.CapacityIs | nexterm-client-gpu/src/glyph_atlas.rs:369-384 | The cache capacity is the usable area divided by the cell area, at least 256; a cell without area counts as one pixel |
| AtlasModel.CapacityFits | nexterm-client-gpu/src/glyph_atlas.rs:369-384 | The cache capacity is the number of cells that fit beside the icon reservation, at least 256 |
| AtlasModel.UpdateCapacityHintInv | nexterm-client-gpu/src/glyph_atlas.rs:369-403 | Changing the capacities keeps the invariant |
| AtlasModel.GrowInv | nexterm-client-gpu/src/glyph_atlas.rs:347-363 | Growing gives an atlas that satisfies the invariant again |
| AtlasModel.GrowEnlarges | nexterm-client-gpu/src/glyph_atlas.rs:347-363 | Below the maximum the new side is strictly larger, at most the maximum, and twice the old one or the maximum; the maximum stays; caches and tallies start empty |
| AtlasModel.HintSizesCaches | nexterm-client-gpu/src/glyph_atlas.rs:369-403 | A hint for cells of any shape gives both caches the usable area divided by width times height, at least 256, and is remembered |
| AtlasModel.GrowKeepsHint | nexterm-client-gpu/src/glyph_atlas.rs:347-363 | A hint survives a growth, and both caches get the capacity it calls for on the new side |
| AtlasModel.GrowWithoutHint | nexterm-client-gpu/src/glyph_atlas.rs:347-363 | Without a hint the capacities after a growth are those of a fresh atlas of the new side |
| AtlasModel.AtIsRowMajor | nexterm-client-gpu/src/glyph_atlas.rs:406-493 | The texel in column i of row j of a bitmap is the one at width * j + i of its buffer |
| AtlasGrowth.SideAfterRun | nexterm-client-gpu/src/glyph_atlas.rs:277-363 | After any run from a configured atlas the side is the first one doubled once for each growth, up to the maximum; it is at the maximum if and only if there were as many growths as the configuration needs, two at most |
| AtlasRuns.MissStaysInside | nexterm-client-gpu/src/glyph_atlas.rs:419-445 | A miss writes inside the square if and only if width and height are at most the side |
| AtlasRuns.InsertInv | nexterm-client-gpu/src/glyph_atlas.rs:406-573 | Either insertion keeps the invariant, over wraps, resets and evictions |
| AtlasRuns.InsertHandsOut | nexterm-client-gpu/src/glyph_atlas.rs:406-573 | The rectangle returned is live and shows exactly the pixels last uploaded for the key |
| AtlasRuns.InsertFrame | nexterm-client-gpu/src/glyph_atlas.rs:406-573 | Without a reset every rectangle handed out stays live; a reset and nothing else raises the flag |
| AtlasRuns.MissEvicts | nexterm-client-gpu/src/glyph_atlas.rs:419-493 | After a miss: key last, survivors most recent, the other cache untouched unless reset, tally within budget or one entry left |
| AtlasRecency.CachesAreInDrawOrder | nexterm-client-gpu/src/glyph_atlas.rs:406-573 | In every state reached from a configured atlas each cache lists its keys in ascending order of the last draw of each |
| AtlasRecency.DroppedBeforeKept | nexterm-client-gpu/src/glyph_atlas.rs:208-225 | Whatever the next operation, every key it drops from a cache was last drawn before every key it leaves in that cache |
| AtlasPacking.PackingIsGrid | nexterm-client-gpu/src/glyph_atlas.rs:418-466 | Different glyphs of one size overflow a new atlas if and only if there are more of them than a grid with a one-texel gap has places: (n + 1) / (w + 1) across times (n + 1) / (h + 1) down |
| AtlasRuns.RunInv | nexterm-client-gpu/src/glyph_atlas.rs:347-573 | The invariant holds in every reachable state: over any interleaving of both insertions, frame starts, capacity hints and growth |
| AtlasRuns.CachedRectsAreApart | nexterm-client-gpu/src/glyph_atlas.rs:406-573 | In every state reachable from a newly configured atlas the cached rectangles of both caches lie inside the square and different keys are at least one texel apart |
| AtlasRuns.HitIsFresh | nexterm-client-gpu/src/glyph_atlas.rs:414-416 | In every state reachable from a newly configured atlas a hit shows the alpha that a fresh rasterise-and-upload of the key would show; the colour baked into the texels may differ, and is not what is drawn |
| AtlasRuns.HandedOutStaysIntact | nexterm-client-gpu/src/glyph_atlas.rs:406-573 | A rectangle handed out keeps its pixels until a reset or growth, even after the caches evicted it |
| AtlasRuns.FlagIsSticky | nexterm-client-gpu/src/glyph_atlas.rs:429-445 | Within a frame the flag never falls, and a reset in between means it is up |
| AtlasRuns.OverwriteRaisesFlag | nexterm-client-gpu/src/glyph_atlas.rs:425-445 | Within a frame, if a handed-out rectangle no longer shows its glyph then the flag is up |
| AtlasRuns.StepOverstates | nexterm-client-gpu/src/glyph_atlas.rs:391-403 | One step moves the tallies from the truth by exactly the area a capacity shrink evicts; reset and growth make them exact |
| AtlasRuns.TallyOverRun | nexterm-client-gpu/src/glyph_atlas.rs:208-225 | Over every run, resets and growth included, the tallies never understate, and overstate by exactly the area evicted by shrinks since the last reset |
| AtlasRuns.ExactIffNothingLost | nexterm-client-gpu/src/glyph_atlas.rs:391-403 | From exact tallies, they are exact in every state of a run if and only if no capacity shrink in it evicts any area |
| AtlasRuns.ShrinkLeavesTallyInexact | nexterm-client-gpu/src/glyph_atlas.rs:391-403 | A concrete run, 257 one-texel glyphs and then a larger cell, after which the tally is 257 and the cached area 256 |
| GlyphAtlases.GlyphAtlas.WithSize | nexterm-client-gpu/src/glyph_atlas.rs:290-343 | The constructed object is the initial state of the model |
| GlyphAtlases.GlyphAtlas.NewWithConfig | nexterm-client-gpu/src/glyph_atlas.rs:277-287 | Starts at half the configured maximum, both at least 1024 |
| GlyphAtlases.GlyphAtlas.UpdateCapacityHint | nexterm-client-gpu/src/glyph_atlas.rs:391-403 | In place, the step of the model: both caches resized, tallies left alone |
| GlyphAtlases.GlyphAtlas.BeginFrame | nexterm-client-gpu/src/renderer/render_frame.rs:234-237 | Clears the flag and nothing else |
| GlyphAtlases.GlyphAtlas.Grow | nexterm-client-gpu/src/glyph_atlas.rs:347-363 | In place, the growth step that `AtlasModel.GrowEnlarges` and `AtlasModel.GrowKeepsHint` are about; valid again, whatever the atlas was |
| GlyphAtlases.GlyphAtlas.GetOrInsert | nexterm-client-gpu/src/glyph_atlas.rs:406-493 | In place, for any bitmap, the insertion step on the glyph cache, whose order over runs is that of `AtlasRecency.CachesAreInDrawOrder`, and the rectangle of the model; the invariant is kept if the key is cached or the bitmap fits |
| GlyphAtlases.GlyphAtlas.GetOrInsertLigature | nexterm-client-gpu/src/glyph_atlas.rs:496-573 | In place, for any bitmap, the same insertion step on the ligature cache, with the shared cursor; the invariant is kept on the same terms |
| FrameDrawing.FrameShowsRight | nexterm-client-gpu/src/renderer/render_frame.rs:407-540 | In a frame that starts with current batches and in which no glyph overflows, every rectangle drawn (from kept batches, panes, uncached text and marks, overlays) shows its pixels in the texture the frame is submitted with; so does every batch kept |
| FrameContents.DrawAllDepicts | nexterm-client-gpu/src/renderer/grid_verts.rs:712-718 | Drawing a list of glyphs yields exactly one rectangle for each, in order, with its key and, where a key determines its alpha, a bitmap of that alpha |
| FrameContents.FrameDepicts | nexterm-client-gpu/src/renderer/render_frame.rs:407-540 | A frame contains, in order, one rectangle for each glyph of every grid it draws or whose batch it reuses, of all uncached text, and of the overlays; every batch kept has one for each glyph of the grid that built it |
| FrameContents.LastFrameDepicts | nexterm-client-gpu/src/renderer/render_frame.rs:407-540 | When panes marked reusable have not changed, the last frame of any run contains all the glyphs asked for in it, in order, as without a cache |
| FrameContents.FramesDisplayAll | nexterm-client-gpu/src/renderer/render_frame.rs:407-540 | From start-up, with truthful flags and trusted frames, a frame without overflow displays every glyph asked for: the texture submitted holds its alpha at its own rectangle |
| AtlasGrowth.FrameGrowsIffOverflow | nexterm-client-gpu/src/renderer/event_handler/window.rs:632 | A frame in which a glyph overflows ends with the side doubled up to the maximum and nothing else changes it; the growth asked for is done |
| AtlasGrowth.OverflowsReachMaximum | nexterm-client-gpu/src/renderer/event_handler/window.rs:632 | From start-up the atlas is at the configured maximum if and only if enough frames, two at the most, have overflowed it |
| FrameDrawing.FrameResetsIffOverflow | nexterm-client-gpu/src/renderer/render_frame.rs:234-237 | The atlas is reset in the course of a frame if and only if one of the glyphs it draws meets the guard of the reset, glyphs of reused batches not counting |
| PaneCache.CacheTrustedIff | nexterm-client-gpu/src/renderer/render_frame.rs:654-659 | After a whole frame the kept batches are current if and only if none was kept or no overlay glyph overflows the atlas, which is decided before the overlays are drawn |
| PaneCache.ResetsIffOverflow | nexterm-client-gpu/src/glyph_atlas.rs:418-445 | Drawing a list of glyphs resets the atlas if and only if one of them meets the guard of the reset |
| FrameDrawing.TrustedFramesDrawRight | nexterm-client-gpu/src/renderer/render_frame.rs:1840 | From start-up, after frames in which no overlay overflowed the atlas while batches were kept, every rectangle a frame without overflow draws shows its pixels in the texture it is submitted with |
| CacheFailures.LateOverflowCorruptsFrame | nexterm-client-gpu/src/glyph_atlas.rs:425-445 | The second failing family: any glyphs that overflow an empty atlas give two frames, nothing breaking the trust in the cache, of which the second is submitted with visibly different pixels under a batch it reused, because a later pane overflowed |
| CacheFailures.OverlayOverflowCorruptsPane | nexterm-client-gpu/src/renderer/mod.rs:285-290 | The failing family: any glyphs of any sizes that overflow an empty atlas split into a pane and an overlay after which the next frame reuses the batch over pixels of visibly different alpha, whether the atlas grows or not |
| CacheFailures.EnoughGlyphsOverflow | nexterm-client-gpu/src/glyph_atlas.rs:418-445 | More different glyphs than the atlas has places overflow it, so the family is not empty |
| CacheFailures.SpecksOverflow | nexterm-client-gpu/src/glyph_atlas.rs:418-445 | An input of both families: 1026 * 1025 one-texel glyphs on an atlas of side 1024 |
| Framing.Le32RoundTrip | nexterm-client-core/src/lib.rs:117-118 | The four header bytes read back as the length modulo 2^32 |
| Framing.HeaderIsTruthful | nexterm-client-core/src/lib.rs:117-137 | The header tells the payload length if and only if the payload is below 4 GiB |
| Framing.FrameReadsBack | nexterm-proto/src/lib.rs:83-104 | A frame reads back as its own payload if and only if the payload is at most 64 MiB; above that and below 4 GiB it is refused |
| Framing.ShortFrameBytes | nexterm-proto/src/lib.rs:83-104 | The low byte of the length goes first |
| Framing.LargestImageIsRefused | nexterm-proto/src/lib.rs:76-104 | Pixels of the largest image with any metadata beside them are over the limit and refused |
| Framing.ReceiveLoop | nexterm-client-core/src/lib.rs:131-164 | On any byte stream the loop delivers exactly the decodable payloads up to the first refused length or truncation |
| Framing.AcceptedSplits | nexterm-client-core/src/lib.rs:131-164 | What the reader accepts is the stream cut into frames of accepted payloads and a tail that yields none |
| Framing.SplitIsUnique | nexterm-client-core/src/lib.rs:131-164 | There is one way to split a stream into accepted payloads and tail, so what is delivered is a property of the stream |
| Framing.FlattenReadsBack | nexterm-client-core/src/lib.rs:113-164 | Frames of payloads within the limit read back as those payloads, with nothing left over |
| Framing.BadPayloadKeepsAlignment | nexterm-client-core/src/lib.rs:152-162 | Dropping an undecodable frame from a stream changes nothing that is delivered before or after it |
| Connection.RunKeeps | nexterm-client-core/src/lib.rs:92-167 | For every codec the connection invariant holds in every run of enqueue, serialise, write, transport, read, take and failure steps |
| Connection.DeliveredUpToUnsafe | nexterm-client-core/src/lib.rs:97-164 | In every run, with no bound on any message: up to the first unsafe message enqueued the messages delivered are the serialisable ones, in order |
| Connection.DeliveredIsPrefix | nexterm-client-core/src/lib.rs:97-164 | In every run whose enqueued messages are safe, the delivered messages are a prefix of the serialisable ones enqueued, in order, Hello first; safe means below 4 GiB, or wrapping to a length the receiver refuses |
| Connection.QuiescentDeliversAll | nexterm-client-core/src/lib.rs:62-72 | A run of safe messages at rest with the sender up and no frame pending has delivered every serialisable message |
| Connection.HelloComesFirst | nexterm-client-core/src/lib.rs:100-110 | At every point of every run, whatever is enqueued, the bytes written are a prefix of the Hello frame or start with all of it |
| Connection.UnsafeLengthBreaksPrefix | nexterm-client-core/src/lib.rs:117 | Every unsafe length can fail: with a payload of that length the header wraps and the receiver delivers a message nobody sent |
| Connection.SendLoop | nexterm-client-core/src/lib.rs:113-128 | The send task writes one frame per serialisable message; within the limit the reader gets exactly those messages back, to the last byte |
| NodeIds.EncodeDecode | nexterm-client-gpu/src/accessibility.rs:674-822 | Every descriptor in range decodes to itself and its identifier fits 64 bits |
| NodeIds.DecodeEncode | nexterm-client-gpu/src/accessibility.rs:674-822 | Every 64-bit number decodes to Unknown or to a descriptor in range that encodes to it |
| NodeIds.IdsAreInjective | nexterm-client-gpu/src/accessibility.rs:225-398 | Two descriptors in range share an identifier if and only if they are the same |
| NodeIds.OutOfRangeCollides | nexterm-client-gpu/src/accessibility.rs:375-398 | One scrollback or viewport row past its range has the identifier of a different node |
| AccessModel.RowTextSpec | nexterm-client-gpu/src/accessibility.rs:429-446 | The text of a row is the row up to its last character that is not a space, and one space for a blank row |
| AccessTree.ViewportIsListed | nexterm-client-gpu/src/accessibility.rs:1085-1121 | The viewport rows of a shown pane that get a node are those of its height that exist, the first thousand at most |
| AccessTree.TabsAreListed | nexterm-client-gpu/src/accessibility.rs:955-1010 | The tabs listed are those of the tab order, or of all panes while there is none |
| AccessTree.MenuRoles | nexterm-client-gpu/src/accessibility.rs:1242-1278 | Each entry of the open context menu is listed, a separator as a splitter and any other as an item |
| AccessTree.KindMembers | nexterm-client-gpu/src/accessibility.rs:856-1171 | The nodes listed are exactly those the client state calls for |
| AccessTree.ChildMembers | nexterm-client-gpu/src/accessibility.rs:856-1171 | The children of a listed node are exactly the listed nodes placed under it |
| AccessTree.KindsDistinct | nexterm-client-gpu/src/accessibility.rs:856-1171 | In a sound state no node is listed twice |
| RootedTree.TreeIffSound | nexterm-client-gpu/src/accessibility.rs:856-946 | The update is a rooted tree if and only if the tab order is duplicate-free and within the panes, shown bars have distinct slots and alert numbers are distinct |
| RootedTree.AllReachable | nexterm-client-gpu/src/accessibility.rs:856-946 | In a rooted tree every node is reached from the root |
| RootedTree.FocusIsNodeIff | nexterm-client-gpu/src/accessibility.rs:856-946 | The focus is a node of the update if and only if an overlay is open, no pane is focused, or the focused pane is shown |
| AccessFocus.FocusFollowsState | nexterm-client-gpu/src/accessibility.rs:856-1473 | The focus is on the child of the frontmost overlay that the state selects: the button chosen, the first for any other value; the entry selected; the hovered item; the first label the input is a prefix of; each with its fallback; without an overlay the focused pane or the window. The children listed are the expected ones, in order |
| AccessFocus.CaretFollowsCursor | nexterm-client-gpu/src/accessibility.rs:479-482 | The caret of the focused pane is on the child node of the cursor row, at the cursor column when the row text is at least that long and behind its last character otherwise; no other pane has one |
| RootedTree.CaretPointsIntoRow | nexterm-client-gpu/src/accessibility.rs:479-482 | A caret points at a row that is a child of its own pane, at most one past its last character |
| RootedTree.WindowIsBounded | nexterm-client-gpu/src/accessibility.rs:1062-1084 | At most 201 scrollback rows are exposed, all existing, near the scroll position and encodable |
| RootedTree.WindowCoversScrollPosition | nexterm-client-gpu/src/accessibility.rs:1062-1084 | All rows near the scroll position are exposed if and only if they lie below the 9000-row cap; from row 9100 on none is |
| RootedTree.LongHistoryIsSilent | nexterm-client-gpu/src/accessibility.rs:1062-1084 | A history of 9101 rows, not scrolled back: no row of it is exposed |
| Utf8.CharReadsBack | nexterm-client-gpu/src/accessibility.rs:444 | A character reads back from its UTF-8 bytes and takes as many as its length says |
| Utf8.NothingShorter | nexterm-client-gpu/src/accessibility.rs:444 | No shorter sequence of bytes reads as the same character |
| Utf8.LengthsAddUp | nexterm-client-gpu/src/accessibility.rs:429-446 | The character lengths of a text add up to the number of its UTF-8 bytes, one length per character |
| Utf8.LengthsLocate | nexterm-client-gpu/src/accessibility.rs:429-446 | The lengths before a character say where its bytes begin: reading there gives the character |
| RootedTree.RowTextIsMeasured | nexterm-client-gpu/src/accessibility.rs:436-446 | The text of a row node is never empty, and its lengths cut its bytes into its characters |
| AccessBuilder.PushScrollback | nexterm-client-gpu/src/accessibility.rs:1062-1084 | The loop lists the rows of the scrollback window with their text, in order |
| AccessBuilder.PushRows | nexterm-client-gpu/src/accessibility.rs:1058-1121 | The loop lists window and viewport rows with their text, and the caret of the focused pane |
| AccessBuilder.PushPanes | nexterm-client-gpu/src/accessibility.rs:1044-1133 | The loop lists rows and body of every existing pane, in tab order |
| AccessBuilder.BuildBaseNodes | nexterm-client-gpu/src/accessibility.rs:955-1171 | Everything but overlays, bars and alerts; the root is still provisional |
| AccessBuilder.BuildPalette | nexterm-client-gpu/src/accessibility.rs:1187-1229 | Palette nodes and focus as in the model |
| AccessBuilder.BuildContextMenu | nexterm-client-gpu/src/accessibility.rs:1242-1278 | Menu nodes and focus; separators are listed too |
| AccessBuilder.BuildCloseDialog | nexterm-client-gpu/src/accessibility.rs:1291-1327 | Dialog nodes; the focus is the child of the dialog at the selected position, the first for any other value |
| AccessBuilder.BuildHostManager | nexterm-client-gpu/src/accessibility.rs:1330-1370 | Host list nodes and focus |
| AccessBuilder.BuildQuickSelect | nexterm-client-gpu/src/accessibility.rs:1392-1438 | Quick-select nodes and focus, focus on the first label the input is a prefix of |
| AccessBuilder.BuildMacroPicker | nexterm-client-gpu/src/accessibility.rs:1441-1473 | Macro list nodes and focus |
| AccessBuilder.BuildOverlay | nexterm-client-gpu/src/accessibility.rs:873-908 | The frontmost overlay in priority order, and the focus on the child it selects or its fallback |
| AccessBuilder.PushBars | nexterm-client-gpu/src/accessibility.rs:2092-2114 | The loop lists the bars that are not dismissed |
| AccessBuilder.BuildAlertRegion | nexterm-client-gpu/src/accessibility.rs:2136-2170 | The alert region and its alerts, nothing when there are none |
| AccessBuilder.BuildTree | nexterm-client-gpu/src/accessibility.rs:856-946 | The whole update is the one the tree theorems are about; its focus is where the state puts it, and the carets are where the cursors are |
| CommandBlocks.BlockIdsCollide | nexterm-client-gpu/src/command_blocks.rs:72-74 | Two blocks share an id if and only if they share the pane and the prompt row modulo 2^32 |
| CommandBlocks.ExtractCommandBlocks | nexterm-client-gpu/src/command_blocks.rs:117-166 | The loop computes the fold `Extract` |
| CommandBlocks.ExtractIsSpec | nexterm-client-gpu/src/command_blocks.rs:117-166 | The fold equals the declarative specification: one block per A, each field picked from the marks before the next A |
| CommandBlocks.FirstEndSpec | nexterm-client-gpu/src/command_blocks.rs:151-157 | The end and exit code are those of the first D of the block |
| CommandBlocks.LastOfSpec | nexterm-client-gpu/src/command_blocks.rs:138-150 | Command and output rows are those of the last B, and the last B or C, of the block |
| CommandBlocks.RowsAreOrdered | nexterm-client-gpu/src/command_blocks.rs:76-166 | With non-decreasing rows, prompt <= command <= output <= end <= next prompt |
| CommandBlocks.ExtractionIsStable | nexterm-client-gpu/src/command_blocks.rs:117-166 | Extending the marks never changes a block except a last running one, which keeps id and prompt row |
| CommandBlocks.PromptSplitsStream | nexterm-client-gpu/src/command_blocks.rs:117-166 | If the extension starts with A, the result is the concatenation of the two extractions |
| CommandBlocks.WalkVisitsAllIffDistinct | nexterm-client-gpu/src/command_blocks.rs:255-263 | Stepping forward reaches every block if and only if ids are distinct |
| CommandBlocks.SharedIdTrapsWalk | nexterm-client-gpu/src/command_blocks.rs:255-263 | Prompt, end and prompt on one row: stepping forward stays on the first block for ever |
| CommandBlocks.StepsEnd | nexterm-client-gpu/src/command_blocks.rs:255-280 | From nothing the first or the last block is next; before the first and from an unknown id there is none |
| CommandBlocks.PrevUndoesNext | nexterm-client-gpu/src/command_blocks.rs:255-279 | With distinct ids, stepping back undoes stepping forward |
| BlockViews.RowOffsetIsTrue | nexterm-client-gpu/src/command_blocks.rs:343-391 | The signed 32-bit row offset is the true one if and only if it fits |
| BlockViews.LineIffInView | nexterm-client-gpu/src/command_blocks.rs:343-400 | A block has an overlay line if and only if one of its rows is in the window |
| BlockViews.OverlayAgreesWithLookup | nexterm-client-gpu/src/command_blocks.rs:181-189 | For every visible row the first overlay line covering it has id and selection of the block the look-up finds, says success exactly for an ended block with exit code zero and failure exactly for another code, and marks its prompt row; neither exists without the other |
| BlockViews.DeciderDecides | nexterm-client-gpu/src/command_blocks.rs:234-251 | The first collapsed finished block around a row decides: hidden unless it is its prompt or first output row |
| BlockViews.ExtractedAreConsecutive | nexterm-client-gpu/src/command_blocks.rs:117-166 | Extraction from marks in scrollback order gives the ordered block lists the next two results speak of, running blocks in the middle included, whichever are collapsed |
| BlockViews.CollapsedBlockShowsTwoRows | nexterm-client-gpu/src/command_blocks.rs:226-251 | A collapsed finished block that shares no row with an earlier one shows exactly its prompt and first output row |
| BlockViews.PromptHiddenIff | nexterm-client-gpu/src/command_blocks.rs:234-251 | A prompt row is hidden if and only if an earlier collapsed block ends on it |
| BlockViews.CollapsingHidesNextPrompt | nexterm-client-gpu/src/command_blocks.rs:234-251 | Concrete marks: a command that ends on the row of the next prompt; collapsing it hides that prompt |
| BlockViews.ResolveClickedRow | nexterm-client-gpu/src/command_blocks.rs:200-220 | The click loop indexes the list of rows that are not hidden |
| BlockViews.KeptRowsSpec | nexterm-client-gpu/src/command_blocks.rs:191-220 | That list holds exactly the rows in range that are not hidden, ascending: every drawn row answers to one click |
| BlockViews.CollapsedBlockKeepsTwoRows | nexterm-client-gpu/src/command_blocks.rs:191-251 | Such a block contributes to the rows a click can reach exactly its prompt row and its first output row, as far as they are in view |
| Scrollback.RunKeepsSuffix | nexterm-client-gpu/src/scrollback.rs:31-79 | Over every run of pushes and resizes the content is a suffix of all rows pushed, within the capacity |
| Scrollback.HeldIffNeverCrowdedOut | nexterm-client-gpu/src/scrollback.rs:31-79 | Over every run, a row is held if and only if at every step since it was pushed fewer newer rows had been pushed than the capacity then in force |
| Scrollback.HeldRowIsPushed | nexterm-client-gpu/src/scrollback.rs:31-79 | A row held is the one pushed, as many places from the newest as rows were pushed after it |
| Scrollback.ResizeKeepsRecent | nexterm-client-gpu/src/scrollback.rs:62-79 | A resize after any run keeps exactly the most recent rows, as many as were held and fit the new capacity |
| Scrollback.PushesKeepLast | nexterm-client-gpu/src/scrollback.rs:31-50 | Without a resize the content is exactly the last `capacity` rows pushed |
| Scrollback.DividesByZeroIff | nexterm-client-gpu/src/scrollback.rs:31-50 | The capacity a push divides by is zero if and only if the ring was built with none and never resized; such a ring is empty |
| Scrollback.Ring.PushLine | nexterm-client-gpu/src/scrollback.rs:31-50 | In place, the queue step: the row appended, the oldest dropped when full |
| Scrollback.Ring.Get | nexterm-client-gpu/src/scrollback.rs:88-99 | The i-th retained row, through the ring; None past the end |
| Scrollback.Ring.SetCapacity | nexterm-client-gpu/src/scrollback.rs:62-79 | In place, from a wrapped ring too: the capacity becomes the new one, at least one, and the rows are exactly the most recent of the old ones that fit |
| Scrollback.Ring.SearchNext | nexterm-client-gpu/src/scrollback.rs:134-152 | The first match in cyclic order from the start row; None exactly when no row matches |
| Scrollback.Ring.SearchPrev | nexterm-client-gpu/src/scrollback.rs:157-175 | The first match in backward cyclic order, starting just before the given row |
| Scrollback.NextIsNextHit | nexterm-client-gpu/src/scrollback.rs:134-152 | From the row after a match the search finds the next matching row, cyclically |
| Scrollback.PrevIsPrevHit | nexterm-client-gpu/src/scrollback.rs:157-175 | From a match the backward search finds the matching row before it, cyclically |
| Scrollback.PrevUndoesNext | nexterm-client-gpu/src/scrollback.rs:134-175 | Searching back from the row reached returns the matching row the search came from |
| Scrollback.OneCycleMeetsEveryMatchOnce | nexterm-client-gpu/src/scrollback.rs:134-152 | A walk of one cycle meets every matching row exactly once and no other row |
| Scrollback.WalkGoesRound | nexterm-client-gpu/src/scrollback.rs:134-152 | A walk of any length goes through the matching rows in order, round and round |
| ColorUtil.RoundTripIffFaithful | nexterm-client-gpu/src/color_util.rs:156-206 | For every colour of the unit cube, converting to HSV and back gives it again if and only if the channel taken for the largest is the largest |
| ColorUtil.NearTieReturnsDifferent | nexterm-client-gpu/src/color_util.rs:167-175 | A red channel within 1e-6 below a full green one comes back as large as the green one |
| ColorUtil.SeparatedIsFaithful | nexterm-client-gpu/src/color_util.rs:167-175 | Enough for that: every channel equals the maximum or lies 1e-6 below it |
| ColorUtil.ConvertedStands | nexterm-client-gpu/src/color_util.rs:156-177 | Hue in [0, 360), saturation and value in [0, 1], and saturation times value gives back the spread of the channels |
| ColorUtil.HsvReturnsIff | nexterm-client-gpu/src/color_util.rs:156-203 | For every hue in range and positive saturation and value, converting to a colour and back gives the same triple if and only if the colour in between converts faithfully |
| ColorUtil.BrightnessScales | nexterm-client-gpu/src/color_util.rs:215-227 | A brightness multiplier k in [0, 1] alone scales every channel by k and keeps alpha |
| ColorUtil.SaturationFades | nexterm-client-gpu/src/color_util.rs:215-227 | A saturation multiplier k in [0, 1] alone moves every channel to k of its distance from the brightest, and keeps alpha |
| ColorUtil.HueTurns | nexterm-client-gpu/src/color_util.rs:215-227 | A hue multiplier keeps brightest and darkest channel and alpha; when the new colour is faithful and not grey its hue is turned by that factor modulo 360 and its saturation and value are kept |
| ColorUtil.UnitMultipliersIff | nexterm-client-gpu/src/color_util.rs:208-227 | The unit multipliers are the identity if and only if the colour converts faithfully |
| ColorUtil.AnimationStartsAtIdentity | nexterm-client-gpu/src/color_util.rs:229-247 | At progress zero any multipliers leave a faithful colour unchanged |
| ColorUtil.AnimationEndsAtMultiplier | nexterm-client-gpu/src/color_util.rs:229-247 | From progress one on the multipliers apply in full |
| ColorUtil.PressFillDims | nexterm-client-gpu/src/color_util.rs:314-319 | Press feedback scales every channel by 1 - 0.15 * press |
| ColorUtil.PressFillAlpha | nexterm-client-gpu/src/color_util.rs:310-319 | At press zero the fill is unchanged; pressing never lowers alpha nor exceeds one |
| CursorMotion.RetargetIsContinuousIff | nexterm-client-gpu/src/cursor_motion.rs:95-124 | A retarget leaves the visible cursor where it is if and only if the duration is positive or the target stays |
| CursorMotion.RunIsContinuous | nexterm-client-gpu/src/cursor_motion.rs:95-124 | Over a whole run with positive duration no report makes the cursor jump |
| CursorMotion.NeverLeavesHull | nexterm-client-gpu/src/cursor_motion.rs:101-136 | Over every run the cursor stays in the convex hull of its start and all targets so far: every half-plane with those points holds it |
| CursorMotion.MovesTowardTarget | nexterm-client-gpu/src/cursor_motion.rs:70-136 | Between retargets each coordinate moves monotonically towards the target |
| CursorMotion.OnTargetIff | nexterm-client-gpu/src/cursor_motion.rs:78-136 | The cursor is on its target if and only if the duration is over or it never had to move |
| CursorMotion.RunSettles | nexterm-client-gpu/src/cursor_motion.rs:101-136 | A full duration after the last report the cursor is where that report put it |
| CursorMotion.BeginStandsStill | nexterm-client-gpu/src/cursor_motion.rs:50-63 | A new motion is on its cell at every time: no glide in |
| CursorMotion.ProgressMono | nexterm-client-gpu/src/cursor_motion.rs:70-84 | Eased progress starts at zero, never falls, stays in [0, 1] and is one exactly when the duration is over |
| CursorMotion.ElapsedMs | nexterm-client-gpu/src/cursor_motion.rs:111-131 | Whole milliseconds since the start, rounded down; none before it |
| CursorMotion.EaseIsCubic | nexterm-client-gpu/src/cursor_motion.rs:65-73 | The easing is the cubic one: what is left of a share of the time is the product of what is left of each, and an eighth is left half way |
| CursorMotion.EaseDecelerates | nexterm-client-gpu/src/cursor_motion.rs:65-73 | Ease-out: the same span of time covers strictly less ground later on |
| CursorMotion.RepeatedReportIsIgnored | nexterm-client-gpu/src/cursor_motion.rs:108-110 | Reporting the same cell again does not restart the glide |
| ChromeText.FontManager.ChromeAdvance | nexterm-client-gpu/src/font.rs:325-398 | Answers from the memo or measures; the memo gains that key only, the width is finite and not negative |
| ChromeText.MetricsScale | nexterm-client-gpu/src/font.rs:130-150 | 72 points at scale one are 96 pixels on lines of 115.2, in proportion to size and scale |
| ChromeText.FontManager.FaceFor | nexterm-client-gpu/src/font.rs:301-307 | Text is set at the style size times the display scale, one pixel at least, bold from weight 600 on |
| ChromeText.FontManager.SetScaleFactor | nexterm-client-gpu/src/font.rs:130-150 | A new display scale gives the text metrics and cell width a new manager would have, and leaves the memo as it is |
| ChromeModel.FirstMeasureStands | nexterm-client-gpu/src/font.rs:326-329 | Over any run of calls the memo holds, for each key, the width of the first call with that key |
| ChromeModel.FirstCallIsFirst | nexterm-client-gpu/src/font.rs:326-329 | The call the memo is judged by is the first of the run with that key |
| ChromeModel.MemoIsExactIff | nexterm-client-gpu/src/font.rs:325-331 | The memo answers what measuring afresh would, for every font, if and only if the first call that rounds to the same key asked for the same size |
| ChromeModel.RampIsExact | nexterm-client-gpu/src/font.rs:300-331 | Over any run at one display scale from 0.5 to 2340 the memo is exact for the steps of the type ramp, fractional sizes included |
| ChromeModel.RampKeysDiffer | nexterm-config/src/schema/metrics.rs:142-170 | At one such scale different steps of the ramp never round to the same key |
| ChromeModel.WholeSizesAreExact | nexterm-client-gpu/src/font.rs:325-331 | While all sizes are whole pixels the memo is exact, at any scale |
| ChromeModel.FractionalSizesCollide | nexterm-client-gpu/src/font.rs:325-331 | A limit of the function alone: 17.5 and 18 pixels, steps of the ramp at two scales, share a key, so a memo serving both would give the later the width of the earlier |
| ChromeText.FontManager.MeasureRun | nexterm-client-gpu/src/vertex_util.rs:536-545 | The width of a run is the sum of its memoised widths, and all of them are known afterwards |
| ChromeText.FontManager.TruncateRunToWidth | nexterm-client-gpu/src/vertex_util.rs:556-588 | The greedy loop computes `Truncated` over the widths known at the call |
| ChromeModel.TruncatedFits | nexterm-client-gpu/src/vertex_util.rs:547-588 | The result always fits max(0, budget) |
| ChromeModel.TruncatedSpec | nexterm-client-gpu/src/vertex_util.rs:547-588 | Text is unchanged if and only if it is empty or fits; otherwise it is empty exactly when the ellipsis does not fit, else the longest prefix that fits with the ellipsis |
| ChromeModel.PrefixFitsIff | nexterm-client-gpu/src/vertex_util.rs:575-587 | The prefixes that fit beside the ellipsis are exactly those no longer than the one kept |
| ChromeModel.TruncatedSettles | nexterm-client-gpu/src/vertex_util.rs:556-588 | Truncating a truncated run changes nothing |
| ChromeModel.WiderShowsMore | nexterm-client-gpu/src/vertex_util.rs:556-588 | For any two slot widths, what the narrower shows of the text is a prefix of what the wider shows |
| ChromeModel.DrawnIsMeasured | nexterm-client-gpu/src/vertex_util.rs:529-545 | The width drawn is the width measured, whatever runs were measured or drawn in between, for any size that rounds the same |
| ChromeModel.DrawnTruncationFits | nexterm-client-gpu/src/vertex_util.rs:547-588 | A truncated run still fits its slot when it is drawn later |
| ChromeText.FontManager.AddRunVerts | nexterm-client-gpu/src/vertex_util.rs:601-669 | Returns the measured width and places each glyph at the running sum of the widths before it |
| ChromeModel.EveryInkedIsDrawn | nexterm-client-gpu/src/vertex_util.rs:623-668 | A run has one quad for each character with something to draw, in order: the size of its bitmap, its left edge where the text before it ends |
| ChromeModel.QuadsStayInRun | nexterm-client-gpu/src/vertex_util.rs:623-668 | Glyphs stand in reading order with every left edge inside the measured width |
| ChromeModel.DrawingSplits | nexterm-client-gpu/src/vertex_util.rs:623-668 | Drawing two texts side by side places every glyph as drawing them in one run |

## Left out

- wgpu, winit, accesskit, cosmic-text, tokio and the regex crate: uploads are writes to a map of texels, shaping and rasterising are functions, a pattern is a predicate on rows, task scheduling is any interleaving of steps.
- Texture coordinates: rectangles are integer texel origins and sizes; the division by the side length is not modelled.
- Integer widths where the code cannot reach them in use: cursors, areas, lengths and row counts are unbounded; casts that matter (frame length, block ids, overlay row offsets, rounded sizes, row identifiers) are modelled with their width.
- Rounding of 32-bit floats: colours, positions and widths are exact reals.
- The eviction order inside the LRU crate: a cache is a value, a sequence of entries from least to most recently used; its linked nodes are not modelled.
- GlyphAtlases.GlyphAtlas.GetOrInsert: what the graphics library does with a bitmap larger than the texture is not modelled; the step is, and `AtlasRuns.MissStaysInside` says when it stays inside.
- FrameContents.LastFrameDepicts: assumes that a pane marked reusable has not changed since its batch was built; the comparison of content and layout that sets the mark is not modelled.
- FrameDrawing.FrameShowsRight: one direction only; after an overflow a frame or a batch may still look right by chance.
- A font or scale change, which replaces atlas and memo by new ones: each run begins after it.
- Labels, descriptions, live settings and selection state of accessibility nodes: a node keeps role, children, text, character lengths and caret.
- The settings panel subtree and its focus, and the mapping of its widgets: they rest on widget modules that are not part of this model; their identifiers are.
- The order in which info bars are stacked is taken as given.
- Hashes that detect a changed tree or row: an opaque hasher.
- Connection.DeliveredIsPrefix: assumes the messages enqueued are safe, since with any other length the property can fail (`Connection.UnsafeLengthBreaksPrefix`).
- The serialisation format itself: a partial pair of functions, `decode` inverting `encode`.
- Scrollback.Ring.SearchNext: an empty or malformed pattern is one case, answered with None.
- Highlighting every occurrence within a row, clearing the scrollback, and reading it as text.
- The vertex and index buffers of a drawn run, including the 16-bit vertex numbers: a glyph is its left edge and size.
- Reading the keyboard, the mouse and the clock: instants are parameters in nanoseconds.
- Quantising the cursor position for the pane cache key.
- Contrast correction, palettes of ANSI colours, key tables, tab icons, named blocks, host and palette ranking: easy members or code outside the modelled files.
- Files, keyring, update checks, signatures, Lua, platform calls.

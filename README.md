# Fom-Tools sprite-animation core, modelled in Dafny

Fom-Tools previews the layered character sprites of a farming game. Each character is made of
24 body parts ("base_head", "hair_mid", "tool", ...). Every part has a folder of numbered PNG
frames, and a JSON description lists, for each part, action and facing direction, the frames to
show, how long each one lasts and at what offset. The core modelled here has four parts:

- **Sprite catalogue** (`SpriteLoader`). It scans a character folder and keeps the image files.
  Each file is filed under the first body-part key its name contains. Its frame number is the
  last run of digits before the extension, and the file is stored as a `file:` URL.
  The catalogue then answers which parts and frames exist.
- **Recolouring** (`LUTManager`). A palette image (LUT) has template colours in column 0 and
  one colour variant per further column. Recolouring a sprite replaces every pixel close to a
  template colour with the colour of the selected variant in that template's row.
- **Recolour groups** (`LUTGroupManager`). Named groups of body parts share one palette file
  and one selected variant. A part belongs to at most one group.
- **Playback** (`RenderAnimation`). It keeps one image view per body part. When an animation
  starts, every part with sprites gets a timeline of key frames built from its frame list. The
  key frames are scaled by the playback speed, their offsets and sprite sizes by the display
  scale. The viewer also applies a per-direction stacking order and supports pausing,
  restarting, rescaling and an external frame map.

Modules:

- `common.dfy` (`Common`): the body-part list and ASCII string helpers.
- `sprite_loader.dfy` (`SpriteLoading`): file-name rules, the catalogue as a fold over the
  scanned files, and the `SpriteLoader` class over `spritePaths`.
- `lut_manager.dfy` (`LUT`): colours, images, template matching and the `LUTManager` class.
  `ApplyLUT` writes into a two-dimensional array, as the source writes into a `WritableImage`.
- `lut_groups.dfy` (`LUTGroups`): the `LUTGroup` and `LUTGroupManager` classes.
- `animation_rules.dfy` (`AnimationRules`): the frame data, direction selection, render orders,
  sprite sizes, Java's `(int)` cast and the key-frame schedule.
- `render_animation.dfy` (`Render`): the `RenderAnimation` class. A JavaFX `Timeline` becomes
  a record of its key frames and a Running/Paused status.

Modelling choices:

- Doubles are reals.
- The reflective lookup `jsonData.getClass().getField(partName)` becomes a map from part name
  to that part's actions (`AnimationLibrary`).
- Image decoding is a parameter: `Option<Image>`. `None` means the file does not exist or
  loading it raised an exception. A file that exists but cannot be decoded arrives as `Some` of
  a 0x0 image, so `LoadLUT` then returns true and the part's template mapping is empty.
- The frame-update listener becomes a log of the events it would have received.
- The template colours are scanned in one fixed order (`ScanBefore`: by red, then green, then
  blue, then opacity). A hash map's iteration order is unspecified, but an unchanged map is
  scanned in the same order every time, so every recolouring of a part picks the same template
  for the same pixel.

Facts the proofs brought out:

- Files for `tool_effect` and `head_gear_back` can never be catalogued.
  `"tool"` comes before `"tool_effect"` in the body-part list, and `"head_gear"` before
  `"head_gear_back"`. Every name containing the longer key also contains the shorter one, and
  the scan stops at the first match (`ShadowedPartsNeverFiled`, `ShadowedPartsStayEmpty`).
- `applyRenderOrder`'s comment says that earlier entries in the order list should appear
  behind. The code gives each part its list index as view order, and in JavaFX a lower view
  order is drawn in front, so earlier entries appear in front. The model follows the code.
- The colour test is a tolerance of 0.01 on channels scaled to 0..1. On 8-bit channels this
  means a difference of at most 2, and the relation is not transitive
  (`ColorsMatchIsNotAnEquivalence`).
- `setGroupLUT` ignores the result of `loadLUT`. When the palette cannot be read, the variant
  is still selected for every member.
- `removeLUT` keeps the part's template mapping. Recolouring still stops, because it also needs
  a loaded palette.
- `renderCurrentFrame` loads sprites at their natural size. The timeline handler loads them at
  the scaled size.

## Model

| member | source | states |
|---|---|---|
| SpriteLoading.IsImageFile | src/main/java/com/nilecramm/fomtools/SpriteLoader.java:70-74 | the lower-cased name ends in .png, .jpg, .jpeg or .gif; its properties are the four lemmas below |
| SpriteLoading.ImageFileHasDot | src/main/java/com/nilecramm/fomtools/SpriteLoader.java:70-74 | every accepted image file name contains a '.', so the frame-number step can strip an extension |
| SpriteLoading.ImageFileIgnoresCase | src/main/java/com/nilecramm/fomtools/SpriteLoader.java:70-74 | the extension test is case-insensitive: lower-casing the name never changes the verdict |
| SpriteLoading.ImageExtensionsAccepted | src/main/java/com/nilecramm/fomtools/SpriteLoader.java:70-74 | any name ending in .png, .jpg, .jpeg or .gif is an image file |
| SpriteLoading.ImageFileExamples | src/main/java/com/nilecramm/fomtools/SpriteLoader.java:70-74 | upper- and mixed-case extensions are accepted; "notes.txt" and a bare "png" are not |
| SpriteLoading.DigitsEndingAtIsMaximal | src/main/java/com/nilecramm/fomtools/SpriteLoader.java:116-122 | the digit buffer at position i is exactly the digits just before i, and the character before it is not a digit |
| SpriteLoading.LastDigitRunIsLastMaximalRun | src/main/java/com/nilecramm/fomtools/SpriteLoader.java:113-131 | no number is found iff the text has no digit; otherwise the result is the value of the last maximal digit run |
| SpriteLoading.DigitRunsEndWithLastRun | src/main/java/com/nilecramm/fomtools/SpriteLoader.java:113-131 | the last element of the list of all numbers equals the last digit run, and the list is empty exactly when no run exists |
| SpriteLoading.LastDotIsLast | src/main/java/com/nilecramm/fomtools/SpriteLoader.java:110 | lastIndexOf('.') points at a '.' with no '.' after it |
| SpriteLoading.FrameNumber | src/main/java/com/nilecramm/fomtools/SpriteLoader.java:108-132 | the last digit run of the name before its last '.', or none; characterised by LastDigitRunIsLastMaximalRun |
| SpriteLoading.FrameNumberExample | src/main/java/com/nilecramm/fomtools/SpriteLoader.java:108-132 | "hair_mid_12_3.png" has frame number 3 (the last number before the extension) |
| SpriteLoading.ExtractFrameNumber | src/main/java/com/nilecramm/fomtools/SpriteLoader.java:108-132 | the character loop with its digit buffer returns the frame number of the stem before the last '.' |
| SpriteLoading.FirstContainedKeyIsFirst | src/main/java/com/nilecramm/fomtools/SpriteLoader.java:84-99 | the loop with `break` picks a key the name contains and no earlier key is contained; none iff no key is contained |
| SpriteLoading.ShadowedKeyNeverFirst | src/main/java/com/nilecramm/fomtools/SpriteLoader.java:84-99 | a key listed after a prefix of itself can never be the first contained key |
| SpriteLoading.Placement | src/main/java/com/nilecramm/fomtools/SpriteLoader.java:80-101 | a placed file always lands under one of the 24 body parts |
| SpriteLoading.ShadowedPartsNeverFiled | src/main/java/com/nilecramm/fomtools/SpriteLoader.java:15-21 | no file is ever filed under tool_effect or head_gear_back |
| SpriteLoading.FileUrl | src/main/java/com/nilecramm/fomtools/SpriteLoader.java:91-94 | the URL is "file:" followed by the path with every backslash turned into '/', other characters kept in place, and no backslash left |
| SpriteLoading.EmptyCatalogue | src/main/java/com/nilecramm/fomtools/SpriteLoader.java:29-34 | the reset catalogue has exactly the 24 body parts as keys |
| SpriteLoading.StoreEntry | src/main/java/com/nilecramm/fomtools/SpriteLoader.java:89-94 | storing one file adds or overwrites only its own (part, frame) entry and keeps every other entry |
| SpriteLoading.CatalogueEntry | src/main/java/com/nilecramm/fomtools/SpriteLoader.java:27-101 | frame n of a part is catalogued iff some scanned image file targets it, and its URL is that of the last such file |
| SpriteLoading.CataloguedPart | src/main/java/com/nilecramm/fomtools/SpriteLoader.java:187-190 | a part has sprites after loading iff some scanned file is filed under it |
| SpriteLoading.ShadowedPartsStayEmpty | src/main/java/com/nilecramm/fomtools/SpriteLoader.java:15-21 | after any load, tool_effect and head_gear_back have no frames |
| SpriteLoading.BasicSpritesAfterLoad | src/main/java/com/nilecramm/fomtools/SpriteLoader.java:170-180 | after loading, the basic-sprite check holds iff each of the five base parts has a file filed under it |
| SpriteLoading.SpriteLoader.constructor | src/main/java/com/nilecramm/fomtools/SpriteLoader.java:12 | a new loader has an empty catalogue |
| SpriteLoading.SpriteLoader.LoadCharacterSprites | src/main/java/com/nilecramm/fomtools/SpriteLoader.java:27-63 | after clearing and rescanning, the catalogue is the fold of the scanned files, whatever was loaded before |
| SpriteLoading.SpriteLoader.CategorizeImage | src/main/java/com/nilecramm/fomtools/SpriteLoader.java:80-101 | one image file is stored under its part and frame, or not at all |
| SpriteLoading.SpriteLoader.GetSpritePath | src/main/java/com/nilecramm/fomtools/SpriteLoader.java:140-143 | a path is returned iff the part and the frame are catalogued, and it is the stored URL |
| SpriteLoading.SpriteLoader.GetAvailableFrames | src/main/java/com/nilecramm/fomtools/SpriteLoader.java:197-200 | exactly the frames that have a sprite path; non-empty iff the part has sprites |
| SpriteLoading.SpriteLoader.HasSpritesForPart | src/main/java/com/nilecramm/fomtools/SpriteLoader.java:187-190 | the part is catalogued with at least one frame; see GetAvailableFrames and CataloguedPart |
| SpriteLoading.SpriteLoader.AllHaveSprites | src/main/java/com/nilecramm/fomtools/SpriteLoader.java:174-179 | the early-return loop is true iff every listed part has sprites |
| SpriteLoading.SpriteLoader.HasBasicSprites | src/main/java/com/nilecramm/fomtools/SpriteLoader.java:170-180 | true iff every one of the five base parts has at least one sprite |
| SpriteLoading.SpriteLoader.PartsWithSprites | src/main/java/com/nilecramm/fomtools/SpriteLoader.java:207-209 | the filter keeps exactly the parts with sprites, in their original order |
| SpriteLoading.SpriteLoader.GetAvailableBodyParts | src/main/java/com/nilecramm/fomtools/SpriteLoader.java:206-210 | exactly the body parts with sprites, in body-part-list order |
| LUT.Fraction | src/main/java/com/nilecramm/fomtools/LUTManager.java:162-168 | an 8-bit channel read as a JavaFX colour component lies in [0, 1] |
| LUT.ColorsMatch | src/main/java/com/nilecramm/fomtools/LUTManager.java:162-168 | red, green and blue each differ by less than 0.01 as fractions, opacity ignored; characterised by ColorsMatchWithinTwo |
| LUT.ChannelsCloseWithinTwo | src/main/java/com/nilecramm/fomtools/LUTManager.java:162-168 | the 0.01 tolerance on c/255 holds iff the 8-bit channels differ by at most 2 |
| LUT.ColorsMatchWithinTwo | src/main/java/com/nilecramm/fomtools/LUTManager.java:162-168 | two colours match iff red, green and blue each differ by at most 2 (alpha ignored) |
| LUT.ColorsMatchIsNotAnEquivalence | src/main/java/com/nilecramm/fomtools/LUTManager.java:162-168 | matching is symmetric and reflexive but not transitive |
| LUT.IsTemplateColor | src/main/java/com/nilecramm/fomtools/LUTManager.java:136-137 | visible, and some colour channel above 0.01; characterised by TemplateColorThreshold |
| LUT.TemplateColorThreshold | src/main/java/com/nilecramm/fomtools/LUTManager.java:136-137 | a column-0 colour is a template iff it is not fully transparent and some channel is at least 3 |
| LUT.TemplateMapping | src/main/java/com/nilecramm/fomtools/LUTManager.java:123-150 | the template colours of column 0, each mapped to a row; characterised by the two lemmas below |
| LUT.TemplateRowsAreSeenColors | src/main/java/com/nilecramm/fomtools/LUTManager.java:123-150 | the mapping's keys are exactly the template colours found in column 0 |
| LUT.TemplateRowsAreLastRows | src/main/java/com/nilecramm/fomtools/LUTManager.java:123-150 | each template colour maps to the last row holding it |
| LUT.TemplateMappingInside | src/main/java/com/nilecramm/fomtools/LUTManager.java:127-149 | every mapped row lies inside the palette |
| LUT.EmptyLUTHasNoTemplates | src/main/java/com/nilecramm/fomtools/LUTManager.java:127-130 | a palette with no column yields an empty mapping |
| LUT.SeparatedTemplatesAreUnambiguous | src/main/java/com/nilecramm/fomtools/LUTManager.java:114-121 | when template colours differ by more than 4 in some channel, no sprite colour matches two of them |
| LUT.RecolouringIsDeterministic | src/main/java/com/nilecramm/fomtools/LUTManager.java:79-108 | the recoloured image is determined by the sprite, the mapping, the palette and the column: two recolourings with the same inputs are equal |
| LUT.FirstMatch | src/main/java/com/nilecramm/fomtools/LUTManager.java:114-121 | the template colour the scan stops at: none iff the pixel matches no template; otherwise a matching template that comes first in the scan order among all matching ones |
| LUT.UnambiguousMatchIsOrderFree | src/main/java/com/nilecramm/fomtools/LUTManager.java:114-121 | when no colour matches two templates, the template found is whichever one the pixel matches, so the scan order does not matter |
| LUT.NoTemplatesCopy | src/main/java/com/nilecramm/fomtools/LUTManager.java:79-108 | with no template colours the result is a pixel-for-pixel copy |
| LUT.ImageOf | src/main/java/com/nilecramm/fomtools/LUTManager.java:79-108 | the written array read back as an image has its dimensions and pixels |
| LUT.LUTManager.constructor | src/main/java/com/nilecramm/fomtools/LUTManager.java:16-18 | a new manager has no palettes, selections or mappings |
| LUT.LUTManager.HasLUT | src/main/java/com/nilecramm/fomtools/LUTManager.java:180-182 | a palette is loaded for the part |
| LUT.LUTManager.LoadLUT | src/main/java/com/nilecramm/fomtools/LUTManager.java:23-42 | success iff the palette could be read; then the palette is stored, variant 0 selected and the template mapping rebuilt; on failure nothing changes |
| LUT.LUTManager.AnalyzeLUTColors | src/main/java/com/nilecramm/fomtools/LUTManager.java:123-150 | replaces the part's mapping with the template mapping of the palette and changes nothing else |
| LUT.LUTManager.GetAvailableVariantIndices | src/main/java/com/nilecramm/fomtools/LUTManager.java:47-65 | every palette column 0 .. width-1 in order when the part has a palette and at least one template colour; otherwise the empty list |
| LUT.LUTManager.GetColorCount | src/main/java/com/nilecramm/fomtools/LUTManager.java:155-157 | the number of offered variants: the palette width, or 0 when the part has no palette or no template colour |
| LUT.LUTManager.FindMatchingTemplateColor | src/main/java/com/nilecramm/fomtools/LUTManager.java:114-121 | the early-return scan gives none iff no template colour matches; otherwise the row of the first matching template in the scan order |
| LUT.LUTManager.SetSelectedColor | src/main/java/com/nilecramm/fomtools/LUTManager.java:173-175 | records the variant for the part and changes nothing else |
| LUT.LUTManager.RemoveLUT | src/main/java/com/nilecramm/fomtools/LUTManager.java:187-190 | drops the palette and the selection, keeps the mapping; the part is no longer recoloured |
| LUT.LUTManager.ApplyLUT | src/main/java/com/nilecramm/fomtools/LUTManager.java:70-109 | the sprite itself when the part has no palette, no mapping, or variant 0 selected; otherwise every visible pixel matching a template takes the selected variant's colour from that row, and every other pixel is copied |
| LUT.VariantRoundTrip | src/main/java/com/nilecramm/fomtools/LUTManager.java:70-109 | selecting variant v recolours the sprite into column v; selecting 0 then restores the original sprite, and reselecting v reproduces the same image |
| LUTGroups.LUTGroup.constructor | src/main/java/com/nilecramm/fomtools/LUTGroupManager.java:18-22 | a new group has its name, no palette, variant 0 and no parts |
| LUTGroups.LUTGroup.SetName | src/main/java/com/nilecramm/fomtools/LUTGroupManager.java:26 | sets the name and keeps the other fields |
| LUTGroups.LUTGroup.SetLutPath | src/main/java/com/nilecramm/fomtools/LUTGroupManager.java:28 | sets the palette path, or clears it (null) as removing a group's palette does, and keeps the other fields |
| LUTGroups.LUTGroup.SetSelectedVariant | src/main/java/com/nilecramm/fomtools/LUTGroupManager.java:30 | sets the variant and keeps the other fields |
| LUTGroups.LUTGroup.AddPart | src/main/java/com/nilecramm/fomtools/LUTGroupManager.java:33 | the part set gains the part |
| LUTGroups.LUTGroup.RemovePart | src/main/java/com/nilecramm/fomtools/LUTGroupManager.java:34 | the part set loses the part |
| LUTGroups.AssignedEntries | src/main/java/com/nilecramm/fomtools/LUTGroupManager.java:126-129 | putting one value for every member adds the members as keys, sets them to the value and keeps the other entries |
| LUTGroups.LoadAndSelect | src/main/java/com/nilecramm/fomtools/LUTGroupManager.java:127-128 | one member: the palette is loaded when readable and the group's variant is selected even when it is not |
| LUTGroups.LoadForMembers | src/main/java/com/nilecramm/fomtools/LUTGroupManager.java:126-129 | every member gets the palette (when readable), its template mapping and the group's variant; other parts keep theirs |
| LUTGroups.SelectForMembersWithLUT | src/main/java/com/nilecramm/fomtools/LUTGroupManager.java:142-146 | exactly the members that have a palette get the new variant; palettes and mappings are unchanged |
| LUTGroups.LUTGroupManager.constructor | src/main/java/com/nilecramm/fomtools/LUTGroupManager.java:9-10 | a new manager has no groups and no memberships |
| LUTGroups.LUTGroupManager.AtMostOneGroup | src/main/java/com/nilecramm/fomtools/LUTGroupManager.java:64-87 | under the invariant kept by every operation, a part is a member of at most one group |
| LUTGroups.LUTGroupManager.CreateGroup | src/main/java/com/nilecramm/fomtools/LUTGroupManager.java:41-45 | an existing name is left alone; a new name gets a fresh empty group |
| LUTGroups.LUTGroupManager.DeleteGroup | src/main/java/com/nilecramm/fomtools/LUTGroupManager.java:50-59 | the group and the memberships of all its parts disappear; an unknown name changes nothing |
| LUTGroups.LUTGroupManager.RemovePartFromCurrentGroup | src/main/java/com/nilecramm/fomtools/LUTGroupManager.java:78-87 | the part leaves every group and has no group afterwards; group settings are kept |
| LUTGroups.LUTGroupManager.AddPartToGroup | src/main/java/com/nilecramm/fomtools/LUTGroupManager.java:64-73 | the part leaves its old group and joins the named one if it exists; otherwise it ends up in no group |
| LUTGroups.LUTGroupManager.JoinGroup | src/main/java/com/nilecramm/fomtools/LUTGroupManager.java:68-71 | a part without a group is added to the group and recorded in the membership map |
| LUTGroups.LUTGroupManager.GetPartGroup | src/main/java/com/nilecramm/fomtools/LUTGroupManager.java:92-94 | returns g iff the part is a member of group g |
| LUTGroups.LUTGroupManager.GetGroup | src/main/java/com/nilecramm/fomtools/LUTGroupManager.java:106-108 | a group is returned iff the name exists; it is the very group object stored under that name, and it carries that name |
| LUTGroups.LUTGroupManager.GetGroupNames | src/main/java/com/nilecramm/fomtools/LUTGroupManager.java:99-101 | lists every group name exactly once |
| LUTGroups.LUTGroupManager.SetGroupLUT | src/main/java/com/nilecramm/fomtools/LUTGroupManager.java:120-131 | records the path, then loads the palette and selects the group's variant for every member; an unknown group changes nothing |
| LUTGroups.LUTGroupManager.SetGroupVariant | src/main/java/com/nilecramm/fomtools/LUTGroupManager.java:136-148 | records the variant and selects it for the members that have a palette; other groups are untouched |
| AnimationRules.UnknownDirectionActsAsSouth | src/main/java/com/nilecramm/fomtools/RenderAnimation.java:286-291 | any direction other than north and east plays the south frames and uses the south render order |
| AnimationRules.RankIsPosition | src/main/java/com/nilecramm/fomtools/RenderAnimation.java:244-251 | in a list without repeats, a part's view order is its index |
| AnimationRules.RankOfUnlisted | src/main/java/com/nilecramm/fomtools/RenderAnimation.java:238-241 | a part missing from the order keeps the reset view order 0 |
| AnimationRules.ViewOrders | src/main/java/com/nilecramm/fomtools/RenderAnimation.java:235-252 | every image view gets a view order |
| AnimationRules.HeldItemIsNoPart | src/main/java/com/nilecramm/fomtools/RenderAnimation.java:64-83 | the "held_item" entry of the orders names no image view, so it is skipped |
| AnimationRules.OrdersListEveryPartOnce | src/main/java/com/nilecramm/fomtools/RenderAnimation.java:64-83 | each direction's order lists every body part exactly once |
| AnimationRules.ViewOrdersAreStrict | src/main/java/com/nilecramm/fomtools/RenderAnimation.java:235-252 | after applying an order, distinct parts have distinct view orders, each the part's index in the order |
| AnimationRules.SouthHeadBeforeChest | src/main/java/com/nilecramm/fomtools/RenderAnimation.java:64-70 | facing south, the head has a lower view order than the chest, so it is drawn in front |
| AnimationRules.JavaIntCastTruncates | src/main/java/com/nilecramm/fomtools/RenderAnimation.java:314-315 | the (int) cast rounds toward zero for both signs |
| AnimationRules.BaseSpriteSize | src/main/java/com/nilecramm/fomtools/RenderAnimation.java:331-337 | a sprite's natural size is 16, 32 or 40 pixels |
| AnimationRules.ScaledSizeIsMonotone | src/main/java/com/nilecramm/fomtools/RenderAnimation.java:339-340 | scale 1 keeps the natural size; a larger scale never gives a smaller sprite, and truncation never exceeds the exact product |
| AnimationRules.ScalingExamples | src/main/java/com/nilecramm/fomtools/RenderAnimation.java:314-315 | an offset of -3 at scale 1.5 becomes -4 and 3 becomes 4; a 16-pixel head at 1.5 is 24 pixels, a 40-pixel hair at 0.75 is 30 |
| AnimationRules.StartTimeIsScaledSum | src/main/java/com/nilecramm/fomtools/RenderAnimation.java:308-367 | key frame i starts at the sum of the earlier frame durations divided by the speed |
| AnimationRules.StartTimesIncrease | src/main/java/com/nilecramm/fomtools/RenderAnimation.java:308-367 | with non-negative durations, start times are non-negative and never decrease |
| AnimationRules.ScheduleShape | src/main/java/com/nilecramm/fomtools/RenderAnimation.java:308-372 | one key frame per frame plus a loop marker at the total duration over speed; the first starts at 0 and times are ordered |
| AnimationRules.ScheduleAtDoubleSpeed | src/main/java/com/nilecramm/fomtools/RenderAnimation.java:317 | doubling the speed halves every key-frame time |
| AnimationRules.TimelineForIsSchedule | src/main/java/com/nilecramm/fomtools/RenderAnimation.java:259-306 | a timeline exists iff the part has the action and non-empty frames for the direction; it is then the schedule of those frames |
| Render.WithStatusTwice | src/main/java/com/nilecramm/fomtools/RenderAnimation.java:107-115 | pausing or playing every timeline leaves all in that status, and a later switch overrides an earlier one |
| Render.StartedEntries | src/main/java/com/nilecramm/fomtools/RenderAnimation.java:219-230 | starting the available parts gives exactly each part with a view and a timeline a running timeline; other entries are kept |
| Render.StartedRunning | src/main/java/com/nilecramm/fomtools/RenderAnimation.java:219-230 | when every timeline was running, they all still are after starting more |
| Render.SetStatus | src/main/java/com/nilecramm/fomtools/RenderAnimation.java:107-115 | the loop sets every timeline's status and keeps its key frames |
| Render.BuildSchedule | src/main/java/com/nilecramm/fomtools/RenderAnimation.java:308-372 | the key-frame loop produces the schedule of the frames |
| Render.Redraw | src/main/java/com/nilecramm/fomtools/RenderAnimation.java:168-175 | each part with a timeline and a sprite gets that sprite at natural size; other views are kept |
| Render.RenderAnimation.constructor | src/main/java/com/nilecramm/fomtools/RenderAnimation.java:31-102 | one empty view per body part, no timelines, not paused, scale and speed 1, action idle facing south |
| Render.RenderAnimation.SetFrameUpdateListener | src/main/java/com/nilecramm/fomtools/RenderAnimation.java:28-30 | installs or removes the listener and changes nothing else |
| Render.RenderAnimation.TogglePause | src/main/java/com/nilecramm/fomtools/RenderAnimation.java:104-116 | flips the pause flag and puts every timeline in the matching status, key frames unchanged |
| Render.RenderAnimation.StopAllAnimations | src/main/java/com/nilecramm/fomtools/RenderAnimation.java:384-396 | no timelines remain and every view is cleared |
| Render.RenderAnimation.StartAnimation | src/main/java/com/nilecramm/fomtools/RenderAnimation.java:259-379 | a part with a view and frames for the current action and direction gets a running timeline of its schedule; otherwise nothing changes |
| Render.RenderAnimation.StartAnimations | src/main/java/com/nilecramm/fomtools/RenderAnimation.java:219-230 | every available part is started in order, then the direction's render order is applied |
| Render.RenderAnimation.ApplyRenderOrder | src/main/java/com/nilecramm/fomtools/RenderAnimation.java:235-252 | view orders become the ranks in the current direction's order; nothing else changes |
| Render.RenderAnimation.SetAnimation | src/main/java/com/nilecramm/fomtools/RenderAnimation.java:196-214 | views cleared; timelines are exactly the planned ones for the new action and direction, paused when the viewer is paused |
| Render.RenderAnimation.MatchPause | src/main/java/com/nilecramm/fomtools/RenderAnimation.java:206-213 | running timelines are paused when the viewer is paused |
| Render.RenderAnimation.PlannedHaveSprites | src/main/java/com/nilecramm/fomtools/RenderAnimation.java:221-225 | only parts with sprites and an image view ever get a timeline |
| Render.RenderAnimation.LoadCharacter | src/main/java/com/nilecramm/fomtools/RenderAnimation.java:132-161 | the catalogue becomes the scan's; the result is true iff each base part has a file; on success with an action the animation restarts and keeps the pause state |
| Render.RenderAnimation.RestartKeepingPause | src/main/java/com/nilecramm/fomtools/RenderAnimation.java:139-158 | restarting the current animation leaves the planned timelines in the status the pause flag had before |
| Render.RenderAnimation.SetSpeed | src/main/java/com/nilecramm/fomtools/RenderAnimation.java:182-189 | the speed is stored and, with an action, the animation is rebuilt at the new speed |
| Render.RenderAnimation.SetScale | src/main/java/com/nilecramm/fomtools/RenderAnimation.java:402-436 | the scale is stored, every view cleared and, with an action, the animation rebuilt |
| Render.RenderAnimation.Dispose | src/main/java/com/nilecramm/fomtools/RenderAnimation.java:441-444 | all animations stop and all views are cleared |
| Render.RenderAnimation.FireKeyFrame | src/main/java/com/nilecramm/fomtools/RenderAnimation.java:321-362 | records the frame; with a sprite it shows it at the scaled size and offset and notifies the listener, otherwise it clears the view |
| Render.RenderAnimation.ShowSprite | src/main/java/com/nilecramm/fomtools/RenderAnimation.java:328-358 | the view shows the scaled sprite at the frame's offset, and the listener (if any) receives one event |
| Render.RenderAnimation.RenderCurrentFrame | src/main/java/com/nilecramm/fomtools/RenderAnimation.java:166-176 | each part with a timeline shows its current frame's sprite (frame 1 by default) at natural size |
| Render.RenderAnimation.UpdateCurrentFrameMap | src/main/java/com/nilecramm/fomtools/RenderAnimation.java:450-457 | the frame map becomes the given entries for known parts only; unknown parts read as frame 1 |
| Render.RenderAnimation.GetAvailableBodyParts | src/main/java/com/nilecramm/fomtools/RenderAnimation.java:463-465 | exactly the body parts with sprites |

## Left out

- The windows (`AnimationViewer`, `GroupManagerWindow`), `ConfigManager` and JSON parsing (`ReadJson`) are not part of this model. The parsed description enters as an `AnimationLibrary` value.
- The recursive directory walk (`scanDirectory`) and `listCharacterFolders` are file-system I/O. The walk is the sequence of files it yields, in walk order.
- Image decoding and `PixelReader` access are I/O. A palette enters as `Option<Image>`, a sprite as an `Image` value.
- The actual iteration order of Java's `HashMap` (hash codes, table capacity) is not modelled. A fixed order on colours stands in for it. When several template colours match one pixel, the row the model picks may differ from the one the program picks, although each run keeps a single order. With separated templates the choice cannot matter (`UnambiguousMatchIsOrderFree`).
- The real-time firing of key frames, the `INDEFINITE` cycling and the position a resumed timeline continues from are JavaFX runtime behaviour. A timeline is its key frames plus a Running/Paused status. `FireKeyFrame` is the effect of one handler call.
- Doubles are modelled as exact reals, without IEEE rounding.
- `Character.isDigit` and `toLowerCase` are modelled on ASCII only.
- `Integer.parseInt` overflow on very long digit runs is not modelled.
- Null data is not modelled: a null `ActionWrapper` (the direction switch at RenderAnimation.java:286-291 then throws a NullPointerException), a null element of a frame array, a null `offset` array, an offset array shorter than two, and null action or direction strings. Each of these makes the source throw.
- The frame fields `depth` and `broadcast_message` are carried in `Frame` but no modelled operation uses them, as in the source.
- Adding views to the container, removing them, and the `fitWidth`, `preserveRatio` and `smooth` settings of the image views are display-only and left out.
- Logging to standard output is left out.
- The `isPaused` and `getSpriteLoader` getters are plain field reads.
- SpriteLoading.ExtractFrameNumber: requires a '.' in the name. The source throws without one, and it is only reached after the image-extension test.
- SpriteLoading.SpriteLoader.HasBasicSprites: requires a prior load. Before any load the source dereferences a missing map.
- LUT.LUTManager.ApplyLUT: requires the selected variant to be a column of the palette whenever some pixel reads the palette, and requires a recoloured sprite to have pixels. The source reads outside the palette in the first case; in the second, an undecodable (0x0) sprite with a variant selected makes `new WritableImage(0, 0)` at LUTManager.java:82 throw an IllegalArgumentException. Neither exception is modelled.
- LUT.VariantRoundTrip: requires a sprite with pixels, for the same reason as `ApplyLUT`.
- Render.RenderAnimation.SetSpeed: requires a positive speed. The speed slider never goes below 0.25, and a zero speed would divide by zero in the source.
- AnimationRules.StartTimesIncrease: assumes non-negative frame durations, as in the game data. A negative duration would reorder key frames.
- AnimationRules.ScheduleShape: assumes non-negative frame durations, like StartTimesIncrease.

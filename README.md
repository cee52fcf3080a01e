# MekTools, modelled in Dafny

MekTools is a Blender add-on for rigging and posing characters imported from Final Fantasy XIV
(Meddle glTF exports and MekRig armatures). This project models the logic beneath its calls into
Blender (`bpy`) as an explicit in-memory scene, and proves what that logic guarantees. Bones are
records of name, parent, constraints, collection tags, transforms and selection. Collections,
objects, pins, actors and handler lists are sequences. Transforms are opaque values.

Each Python file becomes one Dafny module. Code that updates Blender state step by step becomes a
class whose fields are sequences (`PoseRig.PoseObject`, `MeddleMerge.Rig`, `MeddleMerge.MergeScene`,
`SplineTail.TailArmature`, `PoseImport.VisibilityStore`, `SceneState.Scene`).
Each method states its whole new state in terms of the old state: most as a specification
function of it, the scene operators field by field.
The lemmas about those functions state what the add-on promises.

- `wrappers.dfy`, `text.dfy`, `lists.dfy`, `scene.dfy`: `Option`, the `Outcome` of a call that may
  raise a Python exception, string helpers (`lower()`, `in`, `split`, `join`, `str(int)`), and the
  scene with its objects, view layer, selection, hiding, pins, actors and handlers.
- `handlers.dfy`, `helper.dfy`, `pins.dfy`, `actors.dfy`, `pin_operators.dfy`,
  `actor_operators.dfy`: handler registration, `get_unique_name` and `safe_hide_set`, and the pins
  and actors lists with their operators (`mektools/libs/`, `mektools/operators/pins_ot.py`,
  `mektools/operators/actors_ot.py`).
- `pose_rig.dfy`, `pose_steps.dfy`, `pose_import.dfy`, `pose_reset.dfy`: the pose-import engine of
  `mektools/operators/import_pose.py` (mute, load, reverse Copy constraints, pole targets, unmute,
  collection resets, root reset, visibility snapshot and restore) and the reset operators of
  `mektools/operators/pose_helper.py`. `'ERROR'` is not a status an operator may return,
  so Blender turns the one `load_bone` returns for an unreadable rotation into a
  `RuntimeError` in `import_pose`: the import stops at that bone with every constraint muted,
  and the operator never reaches its collection restore.
- `legacy_pose_import.dfy`: the older `operators/import_pose.py`.
- `pose_export.dfy`: pose-record construction and the default file name of
  `operators/export_pose.py`.
- `spline_tail.dfy`: the bone and constraint graph that `generatr_tail_spline_ik` builds
  (`mektools/functions/spline_gen_fn.py`).
- `meddle_merge.dfy`, `meddle_objects.dfy`: armature merge and bone reconciliation, bone-collection
  assignment, racial-code lookup, and merging objects by material and by name
  (`mektools/operators/import_meddle_gltf.py`).
- `manifest.dfy`, `info_panel.dfy`, `support_panel.dfy`, `legacy_support_panel.dfy`,
  `update_operator.dfy`: version labels and update decisions read from `manifest.json`.

The packaged support panel's `format_version_string`
(mektools/panels/mektools_support_community_panel.py:37-55) is the same code as the info panel's,
so `InfoPanel.FormatVersionString` models both.

The merge's
`restore_bone_parents` re-links a surviving bone whose parent was a removed duplicate to the
reference armature's bone of the same name (mektools/operators/import_meddle_gltf.py:142-144); it
does not leave it without a parent. The docstring of `remove_duplicate_bones` names the opposite
direction; the code removes from the incoming armature the names the reference armature has.

## Model

| member | source | states |
|---|---|---|
| Handlers.RemoveFirstExact | mektools/libs/pins.py:75 | `list.remove` takes away exactly the first occurrence of the handler and keeps the order of the rest |
| Handlers.FirstIndex | mektools/libs/pins.py:75 | the position `list.remove` looks for: the handler is there and at no earlier position |
| Handlers.RemoveFirstCount | mektools/libs/pins.py:75 | as multisets, removing a registered handler takes exactly one copy of it away |
| Handlers.RegisteredCount | mektools/libs/pins.py:65-69 | after `add_callback` the handler is registered; its count becomes 1 when it was absent and is unchanged otherwise; no other handler's count changes |
| Handlers.RegisteredIdempotent | mektools/libs/pins.py:65-69 | registering twice is registering once |
| Handlers.UnregisteredCount | mektools/libs/pins.py:71-75 | `remove_callback` takes exactly one occurrence away when there is one, none otherwise, and touches no other handler |
| Handlers.UnregisterAfterRegister | mektools/libs/pins.py:65-75 | removing a handler that was just appended gives back the original list |
| Handlers.ReRegisterOnce | mektools/libs/pins.py:58-63 | with the handler present at most once, remove-then-add leaves it registered exactly once |
| Helper.CandidateInjective | mektools/libs/helper.py:9 | different indices give different `base.NNN` candidates |
| Helper.TakenCandidatesBounded | mektools/libs/helper.py:9-10 | a finite name set can hold at most as many candidates as it has names, so the search ends |
| Helper.GetUniqueName | mektools/libs/helper.py:3-12 | the result is never in `existing_names`; it is `base_name` when that is free, else `base_name.NNN` with the smallest free index from 1 |
| Helper.HideSet | mektools/libs/helper.py:18 | `hide_set` changes the hidden flag of that object only, to the requested value |
| Helper.SafeHideSet | mektools/libs/helper.py:15-18 | visibility changes only for a present object that is in the view layer |
| Pins.FirstPinOf | mektools/libs/pins.py:33-38 | the first index whose pin holds the active object, -1 exactly when none does |
| Pins.LivePinsExact | mektools/libs/pins.py:46-55 | a pin survives clean-up iff its object is unset or still in the view layer |
| Pins.LivePinsUnchanged | mektools/libs/pins.py:46-55 | a list without stale pins is left as it is |
| Pins.SelectPin | mektools/libs/pins.py:5-28 | unless suppressed, an in-range index whose pin holds an object makes it the only selected and the active object; otherwise nothing changes |
| Pins.WritePinsIndex | mektools/libs/pins.py:3-42 | writing the index runs the update hook: while suppressed it changes nothing; otherwise a valid index whose pin holds an object in the view layer makes that object the only selected and the active one, an object outside the view layer empties the selection and keeps the active object, and any other index changes nothing |
| Pins.SyncListWithViewportSelection | mektools/libs/pins.py:30-44 | the index becomes the first pin holding the active object (or -1), selection is untouched and `suppress_pins` ends False |
| Pins.CleanupPinList | mektools/libs/pins.py:46-55 | removal in reverse index order leaves exactly the live pins, in their order |
| Pins.AddCallback | mektools/libs/pins.py:65-69 | the handler list becomes the registered list |
| Pins.RemoveCallback | mektools/libs/pins.py:71-75 | the handler list becomes the unregistered list |
| Pins.OnUpdateCallback | mektools/libs/pins.py:58-63 | remove, sync, clean-up, add: the handler is registered, the index is synced on the list before clean-up, stale pins are gone |
| Pins.IndexSyncedBeforeCleanup | mektools/libs/pins.py:58-63 | because the sync runs before the clean-up, a stale pin in front of the active object's pin leaves the stored index past where that pin ends up |
| Pins.LiveIndex | mektools/libs/pins.py:49-55 | after the clean-up the active object's first pin sits behind exactly the surviving pins that preceded it |
| Actors.SelectedArmatures | mektools/libs/actors.py:25 | exactly the selected objects that are armatures |
| Actors.FirstActorIn | mektools/libs/actors.py:27-31 | the first actor whose armature is among the selected armatures, -1 exactly when there is none |
| Actors.LiveActorsExact | mektools/libs/actors.py:37-46 | an actor survives clean-up iff its armature is unset or still in the view layer |
| Actors.LiveActorsIdempotent | mektools/libs/actors.py:37-46 | cleaning up twice is cleaning up once |
| Actors.UpdateSelectedActor | mektools/libs/actors.py:3-21 | an in-range index whose actor has an armature in the view layer makes it the only selected and the active object; one outside the view layer empties the selection and keeps the active object; otherwise nothing changes |
| Actors.WriteActorsIndex | mektools/libs/actors.py:3-35 | writing the index always runs the selection hook (there is no suppression flag): the new actor's armature becomes the only selected and active object, or the selection is emptied when it is outside the view layer |
| Actors.UpdateActiveActor | mektools/libs/actors.py:23-35 | the index becomes the first actor among the selected armatures (-1 if none); selection changes only when a changed index names an actor, to that armature alone, or to nothing when it is outside the view layer |
| Actors.CleanupActorList | mektools/libs/actors.py:37-46 | removal in reverse index order leaves exactly the live actors, in their order |
| Actors.AddCallback | mektools/libs/actors.py:56-59 | the handler list becomes the registered list |
| Actors.RemoveCallback | mektools/libs/actors.py:61-64 | the handler list becomes the unregistered list |
| Actors.OnUpdateCallback | mektools/libs/actors.py:23-54 | remove, update index, clean-up, add: registered handler, synced index, live actors only; a changed non-negative index makes its actor's armature the only selected and the active object (or empties the selection when that armature is outside the view layer), and otherwise selection and active object stay |
| ActorOperators.ActorEntry | mektools/operators/actors_ot.py:13-26 | an actor gets `mektools_actor_name` (default "Unknown actor") and `mektools_armature_type` (default "Unknown"); a non-actor armature gets "Unknown Armature" and "Unknown"; the entry points at the object |
| ActorOperators.ActorsForLength | mektools/operators/actors_ot.py:12-13 | exactly one entry per armature object with data |
| ActorOperators.ActorsForArmatures | mektools/operators/actors_ot.py:12-25 | an object has an entry iff it is an armature with data |
| ActorOperators.RefreshActors | mektools/operators/actors_ot.py:8-28 | the list is cleared and rebuilt as one entry per listed object, in object order |
| ActorOperators.DeleteActor | mektools/operators/actors_ot.py:35-43 | out of range nothing changes; otherwise the armature is deleted (gone from objects, view layer, hidden set and pins), the entry removed, the index set to `max(0, index - 1)`, and the index hook selects the new actor's armature (or empties the selection when it is outside the view layer); handlers are untouched |
| PinOperators.IndexOfName | mektools/operators/pins_ot.py:14 | `bpy.data.objects.get(name)`: the first object with that name, or none |
| PinOperators.HiddenPinHidesArmature | mektools/operators/pins_ot.py:23-29 | hiding the pin forces its armature hidden whatever armature flag was passed |
| PinOperators.TogglePinVisibility | mektools/operators/pins_ot.py:13-35 | unknown name: CANCELLED, nothing changed; otherwise the flags are stored as passed, then the armature (ARMATURE only) and every child in the view layer are hidden or shown |
| PinOperators.TogglePin | mektools/operators/pins_ot.py:143-153 | for a pinned object exactly its first pin is removed and the other pins keep their order; an unpinned one gets exactly one pin appended |
| PinOperators.TogglePinRoundTrip | mektools/operators/pins_ot.py:143-153 | pinning an unpinned object and toggling again restores the list |
| PinOperators.ToggleTwiceSamePins | mektools/operators/pins_ot.py:143-153 | with the object pinned at most once, toggling twice keeps the same pins |
| PinOperators.SetIsPinned | mektools/operators/pins_ot.py:134-155 | no active object: CANCELLED with the list unchanged; otherwise the active object's first pin is removed or a pin for it appended |
| PinOperators.FindById | mektools/operators/pins_ot.py:100 | the object a pin refers to, when it still exists |
| PinOperators.DeletePin | mektools/operators/pins_ot.py:92-126 | the pin is read with Python's subscript; an index out of range, or a pin without an object, raises with only the selection changed (emptied for a pin without an object unless the parent collection was asked for); otherwise the objects (the first collection's, or the object and its children) are deleted from the data, view layer, hidden set and actors' and pins' references, the selection is emptied on the object path and loses them on the collection path, a deleted active object is cleared, and the entry at `pins_index` is removed, so the others keep their order; index, suppression flag and handlers stay |
| PinOperators.DuplicatePin | mektools/operators/pins_ot.py:50-79 | the handler is removed first; an index out of range raises, and a pin without an object raises after deselecting everything unless the parent collection was asked for, with nothing else changed; pins, hidden set and actors never change; otherwise the copies join the view layer, the copies become the selection and the active object moves to its copy, with the parent collection asked for and a collection to hand the copies move into the new collection and a copy outside the first collection raises, and a finished run re-syncs the index with the new active object and re-adds the handler |
| PinOperators.DuplicatePinned | mektools/operators/pins_ot.py:55-79 | once the pinned object is found, the copies join the data and the view layer and alone are selected, the active object moves to its copy, the copies move into the new collection when asked to (raising at a copy outside the first collection, with index and flag left), and a finished run re-syncs the index and registers the handler |
| PinOperators.DuplicatedPinIndex | mektools/operators/pins_ot.py:74 | fresh copies have no pins, so the re-synced index is -1 when the active object was duplicated and otherwise the index of its first pin |
| PinOperators.ActiveAfterDuplicate | mektools/libs/helper.py:26-32 | `duplicate_move` keeps an active object that was not duplicated and otherwise makes the copy of the same position active |
| PinOperators.DuplicateMove | mektools/libs/helper.py:26-32 | the copies join the objects and the view layer, they alone are selected, and the active object is the one `ActiveAfterDuplicate` gives |
| PinOperators.RelinkedMoves | mektools/operators/pins_ot.py:66-68 | unlinking from the old collection and linking to the new one keeps the copy's identity and leaves it in the new collection only, of the two |
| PinOperators.FirstUnlinked | mektools/operators/pins_ot.py:66-68 | the copies before it are all in the first collection, and the copy at it is not |
| PinOperators.MovedCopiesExact | mektools/operators/pins_ot.py:66-68 | every copy before the first one outside the old collection is moved to the new one, and the copies from there on are untouched |
| PinOperators.MoveCopies | mektools/operators/pins_ot.py:66-68 | the loop leaves the objects as `MovedCopies` says and raises exactly when some copy is not in the old collection |
| SceneState.Scene.RemoveObjects | mektools/operators/actors_ot.py:40 | deleting objects removes them from the data, the view layer, the selection and the hidden set, and clears every pointer to them (active object, parents, pins, actors) |
| PoseReset.RestAllAtRest | mektools/operators/pose_helper.py:16-19 | after a full reset every pose bone is at rest (location 0, rotation (1,0,0,0), scale 1) and names, parents, constraints and collections are untouched |
| PoseReset.RestedWhereIdempotent | mektools/operators/pose_helper.py:16-19 | resetting twice gives the same pose as resetting once |
| PoseReset.SelectionResetSpares | mektools/operators/pose_helper.py:36-44 | the selection reset leaves every unselected bone exactly as it was |
| PoseReset.SelectedBones | mektools/operators/pose_helper.py:36 | the selected list holds exactly the indices of selected bones and is empty iff no bone is selected |
| PoseReset.ResetPose | mektools/operators/pose_helper.py:10-22 | no armature active: CANCELLED and nothing changes; otherwise FINISHED with every bone reset |
| PoseReset.ResetSelection | mektools/operators/pose_helper.py:30-47 | CANCELLED with nothing changed without an armature or without a selected bone; otherwise FINISHED with only the selected bones reset |
| PoseRig.RecordGet | mektools/operators/import_pose.py:174 | `get` on the pose file's `Bones` map finds an entry exactly for a name key that is present, and never for a pose-bone key |
| PoseRig.BoneIndex | mektools/operators/import_pose.py:24 | `pose.bones.get(name)` finds the first bone with that name, and nothing when no bone has it |
| PoseRig.CollectionIndex | mektools/operators/import_pose.py:117 | `collections_all.get(name)` finds the first collection with that name, and nothing when none has it |
| PoseRig.SameSkeletonBoneIndex | mektools/operators/import_pose.py:24 | a change that keeps the skeleton keeps every bone found by name at the same position |
| PoseRig.StripSuffixSpec | mektools/operators/import_pose.py:150-152 | the result is a prefix of the name; a name ending in `.` and digits loses exactly that group, any other name is kept whole |
| PoseRig.StripNumbered | mektools/operators/import_pose.py:150-152 | a numbered copy `x.<digits>` strips back to `x` |
| PoseRig.StripOnlyOnce | mektools/operators/import_pose.py:150-152 | only the last number group goes: `n_hara.001.002` becomes `n_hara.001` |
| PoseSteps.WithMuteAll | mektools/operators/import_pose.py:218-220 | after the mute loop every constraint of every bone carries the requested mute flag |
| PoseSteps.WithMuteSkeleton | mektools/operators/import_pose.py:218-220 | muting or unmuting changes nothing but mute flags |
| PoseSteps.SetMuteAll | mektools/operators/import_pose.py:218-220 | the nested mute loop leaves the armature's bones equal to the muted bones of the old armature |
| PoseSteps.ChildrenParent | mektools/operators/import_pose.py:43 | every bone listed in `bone.children` has that bone as its parent |
| PoseSteps.ChildrenComplete | mektools/operators/import_pose.py:43 | every bone whose parent is that bone is listed in `bone.children`, and the list is in armature order |
| PoseSteps.RootsUpTo | mektools/operators/import_pose.py:46-48 | every root listed is a bone without a parent |
| PoseSteps.RootsComplete | mektools/operators/import_pose.py:46-48 | every bone without a parent is listed as a root, and the roots are in armature order |
| PoseSteps.PreorderParentsFirst | mektools/operators/import_pose.py:39-48 | in `sorted_bones` every bone with a parent comes after a bone carrying that parent's name |
| PoseSteps.CollectBonesRecursive | mektools/operators/import_pose.py:41-44 | the recursive collector appends the bone and then each child's subtree |
| PoseSteps.CollectChildren | mektools/operators/import_pose.py:43-44 | the loop over `bone.children` appends each child's subtree, children in order |
| PoseSteps.ForestAppend | mektools/operators/import_pose.py:46-48 | collecting the subtrees of two root lists in turn is collecting those of the joined list |
| PoseSteps.CollectBones | mektools/operators/import_pose.py:39-48 | the collecting loop yields the preorder of the forest of root bones |
| PoseSteps.CopiedSettings | mektools/operators/import_pose.py:72-97 | spaces and influence are always copied, mix mode and shear only for Copy Transforms, mix mode, Euler order and axes for Copy Rotation, offset and axes for Copy Location; everything else keeps the fresh constraint's default |
| PoseSteps.Reversed | mektools/operators/import_pose.py:67-69 | the twin has the original's kind, targets the armature at the bone that owned the original, and is unmuted |
| PoseSteps.SelectOnly | mektools/operators/import_pose.py:101-102 | after deselect-all and selecting the target, exactly that bone is selected and nothing else changes |
| PoseSteps.ReverseTarget | mektools/operators/import_pose.py:52-65 | a constraint is reversed exactly when it is a Copy constraint with a target, a non-empty sub-target and an existing target bone |
| PoseSteps.ReverseStep | mektools/operators/import_pose.py:52-104 | a skipped constraint changes nothing; otherwise only the target bone gets the visual transform computed with the twin in place, only it is selected, and every constraint list ends as it began |
| PoseSteps.ReverseKeepsRig | mektools/operators/import_pose.py:34-108 | reversing keeps every bone's name, parent, constraint list and collection tags; only transforms and selection change |
| PoseSteps.ReverseBoneSkips | mektools/operators/import_pose.py:52 | a bone with no reversible constraint changes nothing |
| PoseSteps.ReverseOne | mektools/operators/import_pose.py:67-104 | adding the twin, selecting, applying and removing the twin leaves the bones as the specified step does |
| PoseSteps.ReverseConstraints | mektools/operators/import_pose.py:34-108 | the method leaves the bones as the specification of the whole pass, bones visited parents first |
| PoseSteps.ReverseBoneConstraints | mektools/operators/import_pose.py:50-104 | the loop over one bone's constraints leaves the bones as reversing each of that bone's constraints in order does |
| PoseSteps.PoleTarget | mektools/operators/import_pose.py:17-27 | a constraint moves a pole exactly when it is IK with a pole target, a non-empty pole sub-target and an existing pole bone |
| PoseSteps.PoleStep | mektools/operators/import_pose.py:17-29 | a skipped constraint changes nothing; otherwise the pole bone alone gets the transform the matrix setter computes from the current bones |
| PoseSteps.PolesKeepRig | mektools/operators/import_pose.py:12-32 | moving pole targets changes no constraint, name, parent, tag or selection, and only pole bones' transforms change |
| PoseSteps.PlacedKeepsPoles | mektools/operators/import_pose.py:29 | writing a transform keeps every bone's constraints, so the set of pole bones stays the same |
| PoseSteps.PoleStepMoves | mektools/operators/import_pose.py:17-29 | one constraint moves at most its own pole bone, and that transform only |
| PoseSteps.PolesOfBoneMoves | mektools/operators/import_pose.py:16-29 | one bone's IK constraints change transforms only, and only those of pole bones |
| PoseSteps.PolesFromMoves | mektools/operators/import_pose.py:12-29 | the pass from any bone on changes transforms only, and only those of pole bones |
| PoseSteps.PolesOfBoneSkips | mektools/operators/import_pose.py:16-17 | a bone without IK constraints moves no pole |
| PoseSteps.SetPoleTargets | mektools/operators/import_pose.py:12-32 | the loop leaves the bones as the specified pass over all bones in armature order |
| PoseSteps.AsList | mektools/operators/import_pose.py:111-112 | a single name becomes a one-name list; a list is kept |
| PoseSteps.ResetOneCollection | mektools/operators/import_pose.py:126-136 | exactly the bones tagged with the collection and carrying a Copy constraint, or all tagged bones when forced, get the identity rotation |
| PoseSteps.ResetCollectionsExact | mektools/operators/import_pose.py:110-138 | a bone ends with the identity rotation exactly when an existing listed collection resets it; otherwise it keeps its rotation, and nothing but rotations changes |
| PoseSteps.UnhideCollectionsSpec | mektools/operators/import_pose.py:116-124 | each existing listed collection becomes visible, every other keeps its visibility, and names and parents are kept |
| PoseSteps.SameNamesSameIndex | mektools/operators/import_pose.py:117 | collections with the same names are found at the same positions, so unhiding does not change later lookups |
| PoseSteps.ResetBonesInCollections | mektools/operators/import_pose.py:110-138 | the method leaves bones and collections as the two specification functions of the old state say |
| PoseSteps.ShowAndReset | mektools/operators/import_pose.py:116-136 | one pass: an existing collection is made visible and the bones it tags are reset; a missing one changes nothing |
| PoseSteps.HasCopy | mektools/operators/import_pose.py:129-132 | the result is true iff some constraint is Copy Location, Copy Rotation or Copy Transforms |
| PoseImport.ParseAll | mektools/operators/import_pose.py:182 | the list comprehension of `float` succeeds exactly when every part parses, and then holds each part's value in order |
| PoseImport.MoveLastToFront | mektools/operators/import_pose.py:184 | `rot.insert(0, rot.pop())` puts the last item first and shifts the rest up by one |
| PoseImport.ParseRotationExact | mektools/operators/import_pose.py:181-186 | a rotation is read exactly when the text splits at ", " into three or four numbers; four give (w, x, y, z) built from the stored x, y, z, w, three give the exponential-map rotation of the parts with the last moved first |
| PoseImport.QuatOf | mektools/operators/import_pose.py:186 | `Quaternion(rot)` builds a rotation from four numbers as given, from three through the exponential map, and raises for any other count |
| PoseImport.FirstStrippedExact | mektools/operators/import_pose.py:168 | the bone found is the first whose stripped name equals the stripped request; none when no bone matches |
| PoseImport.LoadStatus | mektools/operators/import_pose.py:154-198 | ERROR exactly when a bone matches, the record holds a non-empty entry under the stripped name, and its rotation cannot be read as three or four numbers; FINISHED otherwise |
| PoseImport.LoadedBonesExact | mektools/operators/import_pose.py:162-192 | a bone is loaded exactly when a bone matches and the record's non-empty entry has a rotation of three or four readable numbers; then only that bone's rotation changes, to the conversion of the read rotation against the current bones, otherwise nothing does |
| PoseImport.LoadBone | mektools/operators/import_pose.py:154-198 | the operator leaves the bones and returns the status that the two specification functions give |
| PoseImport.LoadAllKeepsRig | mektools/operators/import_pose.py:223-224 | loading the bones, up to the first ERROR, writes rotations only: names, parents, constraints and tags stay |
| PoseImport.LoadAllRaises | mektools/operators/import_pose.py:193-224 | the loading loop raises (an ERROR status becomes a RuntimeError in the caller) exactly when some bone from the current one on has a non-empty record entry whose rotation cannot be read |
| PoseImport.LoadStageRaises | mektools/operators/import_pose.py:217-224 | after muting and loading, the import raises exactly when a bone has an unreadable record entry; the skeleton is kept and every constraint is still muted |
| PoseImport.ImportRaises | mektools/operators/import_pose.py:193-245 | with an `n_throw` bone the import raises exactly when a bone has an unreadable record entry; then the skeleton is kept, the collections are untouched and every constraint stays muted |
| PoseImport.LoadedKeepsRig | mektools/operators/import_pose.py:162-192 | loading one bone writes at most one rotation: names, parents, constraints and tags stay |
| PoseImport.RootIdentity | mektools/operators/import_pose.py:242 | the root bone gets the identity rotation and every other bone is unchanged |
| PoseImport.ImportWithoutRoot | mektools/operators/import_pose.py:203-211 | without an `n_throw` bone the import only resets the pose, never raises, leaves the collections alone and mutes or unmutes no constraint |
| PoseImport.LoadStageSkeleton | mektools/operators/import_pose.py:217-224 | muting and loading keep the skeleton (names, parents, tags, constraints up to mute flags) |
| PoseImport.AdjustStageRig | mektools/operators/import_pose.py:227-231 | reversing constraints and moving pole targets keep the rig |
| PoseImport.FinishStageExact | mektools/operators/import_pose.py:233-242 | after the last stage every constraint is unmuted, the root has the identity rotation, and every bone that a forced collection tags, or a base collection tags with a Copy constraint, has the identity rotation |
| PoseImport.ImportWithRoot | mektools/operators/import_pose.py:200-245 | with an `n_throw` bone and no unreadable record entry the import completes: it does not raise, the armature keeps its skeleton, its root has the identity rotation and no constraint is left muted |
| PoseImport.ResetCollectionsKeepsRig | mektools/operators/import_pose.py:110-138 | the collection reset keeps names, parents, constraints and tags |
| PoseImport.ImportPose | mektools/operators/import_pose.py:200-245 | the method leaves bones, collections and its raised flag as `ImportedPose` of the old state says: it stops at the first ERROR, skipping the adjust and finish stages |
| PoseImport.RunLoadStage | mektools/operators/import_pose.py:217-224 | muting every constraint and then loading the bones up to the first ERROR leaves the bones and the raised flag as the load stage of the old bones |
| PoseImport.RunAdjustStage | mektools/operators/import_pose.py:227-231 | reversing the constraints and then moving the pole targets leaves the bones as the adjust stage of the old bones |
| PoseImport.RunFinishStage | mektools/operators/import_pose.py:233-242 | unmuting, the two collection resets and the root reset leave the bones as the finish stage and show the listed collections |
| PoseImport.LoadEveryBone | mektools/operators/import_pose.py:223-224 | the loop loads the bones in armature order and stops, raising, at the first ERROR status; bones and flag are as `LoadAll` says |
| PoseImport.StoredFromTrans | mektools/operators/import_pose.py:247-254 | two rounds of storing snapshots compose into one |
| PoseImport.StoredKeepsRecorded | mektools/operators/import_pose.py:247-254 | with unique collection names, storing more snapshots never spoils a recorded one |
| PoseImport.ChildCollections | mektools/operators/import_pose.py:253 | `collection.children` holds exactly the collections whose parent is that collection |
| PoseImport.StoreCollectionVisibility | mektools/operators/import_pose.py:247-254 | storing keeps every earlier entry or overwrites it with a true snapshot, and records the collection's own visibility and parent |
| PoseImport.StoredParent | mektools/operators/import_pose.py:259-263 | the stored parent is followed exactly when it is a non-empty name of an existing collection |
| PoseImport.Restored | mektools/operators/import_pose.py:256-266 | a restore keeps the number, names and parents of the collections |
| PoseImport.RestoredExact | mektools/operators/import_pose.py:256-266 | a restore writes only stored visibilities, the restored collection ends with its stored visibility, and an unknown collection leaves everything as it was |
| PoseImport.RestoreCollectionVisibility | mektools/operators/import_pose.py:256-266 | the recursive method leaves the collections as the restore specification says |
| PoseImport.ShowAll | mektools/operators/import_pose.py:296-297 | every collection becomes visible and nothing else changes |
| PoseImport.StoreAllVisibility | mektools/operators/import_pose.py:292-293 | after the loop every collection is recorded in the store and no entry is lost |
| PoseImport.ShowAllCollections | mektools/operators/import_pose.py:296-297 | the loop leaves every collection visible with nothing else changed |
| PoseImport.RestoreAllVisibility | mektools/operators/import_pose.py:303-304 | when the store knows every collection, each ends with its stored visibility |
| PoseImport.RestoreAfterImport | mektools/operators/import_pose.py:303-304 | after a completed import, which kept every collection's name and parent, restoring every collection from the store gives back exactly the collections the import began with |
| PoseImport.ExecuteImport | mektools/operators/import_pose.py:283-309 | without an armature CANCELLED and nothing changes; otherwise the pose is imported with all collections shown; when the import raises the operator ends Raised with every collection still shown, otherwise FINISHED with the collections exactly as they began |
| LegacyPoseImport.LegacyLoadNeverApplies | operators/import_pose.py:176-184 | as written, loading a bone that exists never changes the armature and never raises, whatever the record holds |
| LegacyPoseImport.LoadFromAsWrittenInert | operators/import_pose.py:221-223 | as written, the loading loop neither raises nor changes a bone |
| LegacyPoseImport.AsWrittenIgnoresRecord | operators/import_pose.py:200-241 | as written, the older import never raises and gives the same result for every record: the root cleared, every constraint muted and then unmuted, the Copy constraints reversed, poles moved, base collections reset |
| LegacyPoseImport.LegacyLoadMissesEntry | operators/import_pose.py:176-198 | for a bone with a readable rotation that the conversion changes, the code as written and the lookup by name disagree |
| LegacyPoseImport.LoadedByNameExact | operators/import_pose.py:176-198 | with the lookup by name: a missing bone raises, a bone without a non-empty entry is left alone, a rotation that is not three or four readable numbers raises, and otherwise exactly that bone's rotation is written |
| LegacyPoseImport.LoadBoneByName | operators/import_pose.py:164-198 | the function raises and writes the bones exactly as the corrected specification says |
| LegacyPoseImport.LoadFromRaises | operators/import_pose.py:221-223 | with the corrected lookup, the loading loop raises exactly when some bone from there on has an unreadable entry |
| LegacyPoseImport.LoadFromKeepsRig | operators/import_pose.py:221-223 | with the corrected lookup, the loading loop writes rotations only: names, parents, constraints and collections are kept |
| LegacyPoseImport.LoadEach | operators/import_pose.py:221-223 | with the corrected lookup, the loop leaves the bones and the raised flag that the specified run gives |
| LegacyPoseImport.LegacyWithoutRoot | operators/import_pose.py:206-209 | without an `n_throw` bone the older import changes nothing at all; unlike the current one it does not reset the pose first |
| LegacyPoseImport.LegacyLoadExact | operators/import_pose.py:211-223 | with the corrected lookup, clearing the root, muting and loading raise exactly when some entry is unreadable, keep the skeleton and leave every constraint muted |
| LegacyPoseImport.LegacyFinishSkeleton | operators/import_pose.py:226-239 | the steps after loading keep the skeleton |
| LegacyPoseImport.LegacyRaises | operators/import_pose.py:200-241 | with the corrected lookup and an `n_throw` bone, the import raises exactly when some entry is unreadable, and then every constraint stays muted and the collections are untouched; either way the skeleton is kept |
| LegacyPoseImport.LegacyCompletes | operators/import_pose.py:231-239 | a completed import unmutes every constraint, puts the root at the identity rotation and resets exactly the Copy-constrained bones of the existing base collections |
| LegacyPoseImport.ImportPose | operators/import_pose.py:200-241 | with the corrected lookup, the method leaves bones, collections and the raised flag as the specification of the older import says |
| LegacyPoseImport.FinishImport | operators/import_pose.py:226-239 | the steps after a load run that did not raise leave bones and collections as specified |
| LegacyPoseImport.Execute | operators/import_pose.py:250-259 | with the corrected lookup: without an armature CANCELLED and nothing changes; otherwise the import runs, and the operator finishes unless a load raised |
| PoseExport.SelectedGroups | operators/export_pose.py:84 | a group is selected exactly when it is one of the seven offered groups and its box is checked |
| PoseExport.GroupNames | operators/export_pose.py:85 | a name is listed exactly when one of the enumerated groups that the bone-group file knows lists it |
| PoseExport.JexNames | operators/export_pose.py:88 | a name is listed exactly when the armature has a bone of that name starting with `j_ex` |
| PoseExport.ExportNamesExact | operators/export_pose.py:84-88 | a name is visited exactly when a selected group lists it, or Hair is checked and the armature has a `j_ex` bone of that name |
| PoseExport.EntryOf | operators/export_pose.py:117-123 | each field is present exactly when its save flag is set, so the entry is empty exactly when no flag is set |
| PoseExport.RotationRoundTrip | operators/export_pose.py:121 | the rotation written as x, y, z, w reads back through the importer's split and rotate as w, x, y, z, component by component |
| PoseExport.RotationRoundTripExact | operators/export_pose.py:121 | with an exact formatter and parser an exported rotation is imported unchanged |
| PoseExport.RecordKeys | operators/export_pose.py:110-125 | the record's keys are the stripped names of the visited names the armature has |
| PoseExport.RecordKeeps | operators/export_pose.py:110-125 | a key that no later visited name writes keeps its value |
| PoseExport.RecordLastWins | operators/export_pose.py:110-125 | the entry under a key comes from the last visited name with that stripped key that the armature has |
| PoseExport.ExportPose | operators/export_pose.py:77-132 | with Hair checked and no active armature the `j_ex` scan raises, otherwise a missing armature or `n_throw` bone is CANCELLED; else FINISHED with the fixed header and the `Bones` map built by visiting the selected names in order |
| PoseExport.BuildBones | operators/export_pose.py:110-125 | the export loop builds the specified `Bones` map |
| PoseExport.LastIndex | operators/export_pose.py:33 | the index found holds the character, and no later one does; none when it does not occur |
| PoseExport.Basename | operators/export_pose.py:33 | the base name is the `/`-free suffix of the path that is either all of it or starts right after a `/` |
| PoseExport.StripExtension | operators/export_pose.py:35 | the stem is a prefix of the name; when shorter it ends right before the last `.`, which has a non-`.` character before it; the whole name is kept exactly when every `.` is part of a leading run of dots |
| PoseExport.DefaultExportPathShape | operators/export_pose.py:31-42 | the default path ends in `.pose`, its base name is the blend file's stem with `.pose` (or `untitled.pose`), and it starts with the export directory when one is set and is just the file name otherwise |
| PoseExport.SlashFreeName | operators/export_pose.py:33-37 | the default file name holds no `/` and ends in `.pose` |
| PoseExport.JoinedShape | operators/export_pose.py:40 | joining a directory and a `/`-free `.pose` name keeps the directory in front and the name as the base name |
| SplineTail.WithConstraint | mektools/functions/spline_gen_fn.py:45 | the bone of that name gets the constraint at the end of its stack; every other bone and every parent link stays |
| SplineTail.IkChain | mektools/functions/spline_gen_fn.py:13-27 | one IK bone per reference but the last |
| SplineTail.CtrlBones | mektools/functions/spline_gen_fn.py:57-68 | one control bone per reference |
| SplineTail.SplineChain | mektools/functions/spline_gen_fn.py:115-130 | one Spline IK bone per reference |
| SplineTail.Hooks | mektools/functions/spline_gen_fn.py:92-104 | one hook per reference |
| SplineTail.GraphOf | mektools/functions/spline_gen_fn.py:24-26 | the link of each bone is its name, parent and connection |
| SplineTail.CopyRotations | mektools/functions/spline_gen_fn.py:157-171 | the Copy Rotation loop changes no parent link and leaves every bone that is not one of its references alone |
| SplineTail.GenerateTailSplineIk | mektools/functions/spline_gen_fn.py:5-196 | with no reference only the IK target is created before the run raises; with one or two, the IK chain and both targets exist when reading the third reference raises; otherwise the whole rig is built and the curve has one point and one hook per reference |
| SplineTail.AddIkChain | mektools/functions/spline_gen_fn.py:11-27 | the loop appends the IK chain and returns the IK bones' names in order |
| SplineTail.AddCtrlBones | mektools/functions/spline_gen_fn.py:57-68 | the loop appends the control bones |
| SplineTail.AddHooks | mektools/functions/spline_gen_fn.py:92-104 | the loop builds one hook per reference, each on the point of its index |
| SplineTail.AddSplineChain | mektools/functions/spline_gen_fn.py:113-130 | the loop appends the spline chain and returns its names in order |
| SplineTail.AddCopyRotations | mektools/functions/spline_gen_fn.py:157-186 | the loop and the last reference's constraint leave the bones as the last stage says |
| SplineTail.GeneratedGraph | mektools/functions/spline_gen_fn.py:5-196 | a complete run appends exactly 3n+1 new bones for n references and changes no existing parent or connection |
| SplineTail.PrefixNames | mektools/functions/spline_gen_fn.py:14-116 | the generated name families never collide with each other or with the target names, and each family is injective |
| SplineTail.GeneratedUnique | mektools/functions/spline_gen_fn.py:5-196 | with fresh names, every bone of the rigged armature has its own name |
| SplineTail.AllUnique | mektools/functions/spline_gen_fn.py:14-116 | fresh generated names leave nothing for the host to rename |
| SplineTail.RefsNotGenerated | mektools/functions/spline_gen_fn.py:14-15 | no reference is a generated name |
| SplineTail.NewConstraints | mektools/functions/spline_gen_fn.py:45-176 | the new bones carry exactly one constraint each on the last IK bone and the second-to-last spline bone, and none elsewhere |
| SplineTail.NewChains | mektools/functions/spline_gen_fn.py:24-125 | the IK chain and the spline chain are each a root followed by connected children |
| SplineTail.IkChainLocal | mektools/functions/spline_gen_fn.py:24-26 | among the new bones, each IK bone after the first hangs, connected, from the one before |
| SplineTail.SplineChainLocal | mektools/functions/spline_gen_fn.py:123-125 | among the new bones, each spline bone after the first hangs, connected, from the one before |
| SplineTail.IkChainCount | mektools/functions/spline_gen_fn.py:42-50 | the IK constraint sits on the last IK bone, names the two targets that exist, and its chain count equals the length of the root-started chain ending there |
| SplineTail.SplineChainCount | mektools/functions/spline_gen_fn.py:136-141 | the Spline IK constraint sits on the second-to-last spline bone with a chain count of the number of references, while the chain ending there has one bone fewer; the last spline bone hangs below it unconstrained |
| SplineTail.RefsDistinct | mektools/functions/spline_gen_fn.py:58-59 | when the run renames nothing, the references are distinct |
| MeddleMerge.ParentMapKeys | mektools/operators/import_meddle_gltf.py:212-215 | every key of the captured parent map is a bone of the incoming armature |
| MeddleMerge.ParentMapAt | mektools/operators/import_meddle_gltf.py:212-215 | with unique names, a parented bone is captured with its parent's name and an unparented bone is not captured |
| MeddleMerge.CaptureParents | mektools/operators/import_meddle_gltf.py:212-215 | the capture loop builds exactly the parent map of the bones |
| MeddleMerge.NameSeq | mektools/operators/import_meddle_gltf.py:217 | the snapshot list holds each bone's name at its position |
| MeddleMerge.RemoveDuplicateBones | mektools/operators/import_meddle_gltf.py:204-225 | B ends as B stripped of A's names, and the returned map is B's captured parent map without A's names |
| MeddleMerge.RelinkedDerived | mektools/operators/import_meddle_gltf.py:221 | removing one edit bone keeps the other bones in order, each with its name and collections |
| MeddleMerge.KeptByDerived | mektools/operators/import_meddle_gltf.py:217-221 | filtering by name keeps two bone lists in step |
| MeddleMerge.KeptByTwice | mektools/operators/import_meddle_gltf.py:217-221 | removing two name sets in turn is removing their union |
| MeddleMerge.KeptByAppend | mektools/operators/import_meddle_gltf.py:217-221 | filtering a joined list is joining the filtered parts |
| MeddleMerge.KeptByRelevant | mektools/operators/import_meddle_gltf.py:217-221 | two name sets that agree on the bones present filter alike |
| MeddleMerge.StripAllDerived | mektools/operators/import_meddle_gltf.py:217-221 | the removal loop over a snapshot of names keeps exactly the bones whose name is not both listed and a reference name, in order |
| MeddleMerge.KeptByNone | mektools/operators/import_meddle_gltf.py:217-221 | removing no names keeps every bone |
| MeddleMerge.StrippedShape | mektools/operators/import_meddle_gltf.py:217-221 | after stripping, B keeps exactly its bones whose name A lacks, in order, with their names and collections |
| MeddleMerge.KeptByMembers | mektools/operators/import_meddle_gltf.py:217-221 | a bone survives exactly when it was in B and its name is not a reference name |
| MeddleMerge.KeptByUnique | mektools/operators/import_meddle_gltf.py:217-221 | stripping keeps bone names unique |
| MeddleMerge.SetParent | mektools/operators/import_meddle_gltf.py:145 | setting one link keeps the number of bones |
| MeddleMerge.RestoreBoneParents | mektools/operators/import_meddle_gltf.py:138-146 | the loop over the captured links leaves the bones as the restore specification says, whatever the dictionary's order |
| MeddleMerge.RestoredAt | mektools/operators/import_meddle_gltf.py:142-145 | restoring keeps names and collections, sets a bone's parent exactly when its captured parent is a bone of the armature, and otherwise leaves the link alone |
| MeddleMerge.StrippedNames | mektools/operators/import_meddle_gltf.py:217-221 | a name survives the strip exactly when B has it and A does not |
| MeddleMerge.StrippedParents | mektools/operators/import_meddle_gltf.py:212-221 | no key of the returned map is a reference name, every key is a bone of B, and each surviving parented bone keeps its captured parent, which may be a reference name |
| MeddleMerge.AssignedNames | mektools/operators/import_meddle_gltf.py:302-313 | the loop assigns at most one name per bone |
| MeddleMerge.FirstNamed | mektools/operators/import_meddle_gltf.py:291-295 | the collection found is the first with that name; none when no collection has it |
| MeddleMerge.AssignBonesToCollection | mektools/operators/import_meddle_gltf.py:286-318 | the method returns the specified names, assigns exactly those bones to the collection and leaves the collections with the first of that name (or one new one) at the requested visibility |
| MeddleMerge.AssignedNamesExact | mektools/operators/import_meddle_gltf.py:302-313 | a name is assigned exactly when a live bone has it and the keywords select it |
| MeddleMerge.AssignedNamesExtremes | mektools/operators/import_meddle_gltf.py:305-311 | without keywords every live bone is assigned; an empty keyword list assigns none |
| MeddleMerge.WithCollectionShape | mektools/operators/import_meddle_gltf.py:291-315 | an existing collection of that name is reused, otherwise exactly one is appended; it ends with the requested visibility and every other collection is unchanged |
| MeddleMerge.MergeOutcome | mektools/operators/import_meddle_gltf.py:99-146 | the merge keeps A's bones exactly and appends B's bones that A lacks, in B's order, each with its original parent link and in "Not Mekrig Bones" |
| MeddleMerge.MergedKept | mektools/operators/import_meddle_gltf.py:107-130 | each of B's survivors ends exactly as it was in B, parent link included, with "Not Mekrig Bones" added to its collections |
| MeddleMerge.KeptRestored | mektools/operators/import_meddle_gltf.py:138-146 | restoring gives a survivor its captured parent when that parent is in the joined armature |
| MeddleMerge.KeptLink | mektools/operators/import_meddle_gltf.py:212-221 | a survivor's parent is captured in the returned map and names either a bone of A or another survivor |
| MeddleMerge.JoinedShape | mektools/operators/import_meddle_gltf.py:107-123 | the joined armature is A's bones followed by B's survivors, each tagged "Not Mekrig Bones" |
| MeddleMerge.RestoreOne | mektools/operators/import_meddle_gltf.py:142-145 | a bone whose link the restore sets, or has no entry for, ends as wanted |
| MeddleMerge.MergeWellFormed | mektools/operators/import_meddle_gltf.py:99-146 | merging two well-formed armatures gives a well-formed one: names unique, every parent inside the armature |
| MeddleMerge.JoinWellFormed | mektools/operators/import_meddle_gltf.py:120-130 | appending survivors with fresh names whose parents exist keeps the armature well-formed |
| MeddleMerge.RetargetedModifiers | mektools/operators/import_meddle_gltf.py:125-126 | retargeting keeps the number of modifiers |
| MeddleMerge.Retargeted | mektools/operators/import_meddle_gltf.py:125-126 | retargeting keeps the number of meshes |
| MeddleMerge.RetargetedExact | mektools/operators/import_meddle_gltf.py:112-126 | exactly the armature modifiers that used B are changed, each to use A; no modifier uses B afterwards and mesh names stay |
| MeddleMerge.FirstHolding | mektools/operators/import_meddle_gltf.py:104-105 | the collection found is the first holding the object; none when no collection holds it |
| MeddleMerge.WithoutObject | mektools/operators/import_meddle_gltf.py:123 | the join removes B's object from the collections without adding or removing a collection |
| MeddleMerge.Removed | mektools/operators/import_meddle_gltf.py:133 | unlinking keeps exactly the other children |
| MeddleMerge.AssignAllPoseBones | mektools/operators/import_meddle_gltf.py:110 | without keywords every pose bone of B is assigned, in B's order |
| MeddleMerge.MergeArmatures | mektools/operators/import_meddle_gltf.py:99-136 | returns A with the merged bones and joined bone collections and retargets the modifiers that used B; when both collections exist and differ it unlinks A's from the scene root, raising first when A's is not a child of the root, and links it under B's, raising when it is already B's child or B's is reachable from it |
| MeddleMerge.ReachesDeeper | mektools/operators/import_meddle_gltf.py:133-134 | a collection reachable within some depth stays reachable within any larger depth, so the cycle test over all collections is complete |
| MeddleMerge.RetargetUsers | mektools/operators/import_meddle_gltf.py:125-126 | the loop over the recorded users retargets exactly them |
| MeddleMerge.Unparented | mektools/operators/import_meddle_gltf.py:68-71 | unparenting keeps the number of bones |
| MeddleMerge.RemovePoleParents | mektools/operators/import_meddle_gltf.py:61-73 | on an armature the four IK pole bones it has become roots; on anything else nothing changes |
| MeddleMerge.UnparentedExact | mektools/operators/import_meddle_gltf.py:66-71 | pole bones lose their parent, every other bone is untouched, and a second call changes nothing |
| MeddleMerge.BonesContainingExact | mektools/operators/import_meddle_gltf.py:198-202 | a bone is listed exactly when the armature has it and its name contains the search string |
| MeddleObjects.RacialTableShape | mektools/operators/import_meddle_gltf.py:17-36 | the racial-code table has 18 distinct codes, each a whole `c` + four digits match |
| MeddleObjects.FirstCodeFrom | mektools/operators/import_meddle_gltf.py:346 | the leftmost position at or after `i` where `c` and four digits start, or none when no such position exists |
| MeddleObjects.FirstIri | mektools/operators/import_meddle_gltf.py:351-354 | the first object with a material slot whose name holds "iri" (empty slots read as ""), or none when no object has one |
| MeddleObjects.GetRacialCode | mektools/operators/import_meddle_gltf.py:341-361 | the name loop, the "iri" search and the table loop compute the racial-code lookup, a dead object in the first loop raising |
| MeddleObjects.RacialCodeInTable | mektools/operators/import_meddle_gltf.py:341-361 | any code the lookup returns is a key of the table |
| MeddleObjects.FirstPassInTable | mektools/operators/import_meddle_gltf.py:343-348 | a code found from the object names is a key of the table |
| MeddleObjects.TableCodeInTable | mektools/operators/import_meddle_gltf.py:356-359 | a code found among the materials is a key of the table that some material slot name contains |
| MeddleObjects.FirstPassWins | mektools/operators/import_meddle_gltf.py:343-348 | the first live object whose name holds the id and whose first match is a table code decides the result, whatever the materials say |
| MeddleObjects.FallbackDecides | mektools/operators/import_meddle_gltf.py:350-361 | with no deciding name the result is none without an "iri" object, and otherwise the first table code, in table order, among that object's slots |
| MeddleObjects.OnlyFirstMatchTried | mektools/operators/import_meddle_gltf.py:346-347 | only the first match in a name is tried: "c9999_c0101" decides nothing |
| MeddleObjects.FallbackFollowsTableOrder | mektools/operators/import_meddle_gltf.py:356-359 | table order, not slot order, picks the code from an "iri" object's materials |
| MeddleObjects.FindArmatureInObjects | mektools/operators/import_meddle_gltf.py:188-196 | the result is the first live armature, and none exactly when no live armature exists |
| MeddleObjects.MatchingExact | mektools/operators/import_meddle_gltf.py:377 | the filter raises exactly when an object is dead, and otherwise keeps exactly the meshes whose lower-cased name holds the lower-cased filter, the first of them first |
| MeddleObjects.MergeByNameFew | mektools/operators/import_meddle_gltf.py:379-382 | with fewer than two matches the objects come back unchanged |
| MeddleObjects.MergeByNameMany | mektools/operators/import_meddle_gltf.py:375-398 | with two or more matches an object survives exactly when it does not match or is the first match, which stands for the joined object |
| MeddleObjects.MergeByMaterial | mektools/operators/import_meddle_gltf.py:148-186 | the three loops compute the merged set: group heads plus live non-mesh objects, raising on an empty first slot |
| MeddleObjects.MaterialMergedExact | mektools/operators/import_meddle_gltf.py:148-186 | an object survives exactly when it is the first mesh of its first-material group or a live non-mesh object |
| MeddleObjects.GroupsRaise | mektools/operators/import_meddle_gltf.py:153-160 | once a prefix of the scan raises, the whole scan raises |
| MeddleObjects.GroupsNonEmpty | mektools/operators/import_meddle_gltf.py:153-160 | every material group holds at least one mesh |
| MeddleObjects.GroupsHead | mektools/operators/import_meddle_gltf.py:153-160 | a group exists exactly for each first material some live mesh has, and it starts with the first such mesh |
| MeddleObjects.GroupsRaiseExact | mektools/operators/import_meddle_gltf.py:153-160 | the scan raises exactly when some live mesh has an empty first material slot |
| Manifests.VersionTextSplits | mektools/panels/info_panel.py:53 | the dotted text of a non-empty list of numbers splits back at "." into each number's digits, in order |
| Manifests.LastSegmentClean | mektools/panels/info_panel.py:52 | the kept feature-name segment holds no "/", and a name without "/" is kept whole |
| Manifests.NoSlashNoContains | mektools/panels/info_panel.py:52 | a text in which no "/" is found holds no "/" |
| Manifests.IndexOfFinds | mektools/panels/info_panel.py:52 | the search for a separator finds one whenever it occurs |
| Manifests.CommonPrefix | mektools/panels/info_panel.py:86 | the two sequences agree up to the returned length and differ right after it when neither has ended |
| Manifests.TupleGreaterAtDifference | mektools/panels/info_panel.py:86 | tuple `>` is decided at the first difference: false when the left ran out, true when the right did, else as the two items compare (an int against a string raises) |
| Manifests.StringGreaterAsymmetric | mektools/panels/info_panel.py:86 | string `>` is irreflexive and never holds both ways |
| Manifests.TupleGreaterIrreflexive | mektools/panels/info_panel.py:86 | no version tuple is greater than itself |
| Manifests.TupleGreaterAsymmetric | mektools/panels/info_panel.py:86 | when `a > b` holds, `b > a` does not |
| Manifests.TupleGreaterTotal | mektools/panels/info_panel.py:86 | tuples of numbers always compare, and two different ones compare one way or the other |
| InfoPanel.FormatVersionString | mektools/panels/info_panel.py:43-61 | the label always starts with "MekTools ", and reads "MekTools Unknown Version" when the manifest is missing or empty |
| InfoPanel.FormatVersionStringParts | mektools/panels/info_panel.py:48-61 | the label of a loaded manifest is "MekTools ", the version text and the feature suffix of the last "/"-segment of the feature name, a segment with no "/" |
| InfoPanel.UpdateAvailable | mektools/panels/info_panel.py:63-92 | no update is flagged when either manifest is missing or empty |
| InfoPanel.NoUpdateOverItself | mektools/panels/info_panel.py:63-92 | a manifest never flags an update over itself |
| InfoPanel.UpdateOneWay | mektools/panels/info_panel.py:63-92 | with numeric versions the comparison never raises, and an update is never flagged both ways |
| InfoPanel.UpdateByFirstDifference | mektools/panels/info_panel.py:85-92 | the first differing version number decides; a longer remote version with the local one as prefix is newer, a shorter one is not; equal versions flag an update exactly when the feature names match and the remote patch is higher |
| SupportPanel.UpdateAvailable | mektools/panels/mektools_support_community_panel.py:57-59 | the flag is set whatever the manifests say |
| LegacySupportPanel.VersionFromJson | panels/mektools_support_community_panel.py:7-24 | "Unknown Version" when the manifest cannot be read; otherwise the joined version, followed by ` (feature)` exactly when the feature name does not lower to `main` |
| LegacySupportPanel.Header | panels/mektools_support_community_panel.py:33-35 | the header always starts with "MekTools " |
| LegacySupportPanel.HeaderIgnoresPatch | panels/mektools_support_community_panel.py:7-24 | the feature patch never changes the header |
| LegacySupportPanel.HeaderAgainstNewerLabel | panels/mektools_support_community_panel.py:7-24 | for a loaded manifest with no "/" in its feature name and no patch shown, the old header equals the newer panels' label |
| LegacySupportPanel.HeaderOnMain | panels/mektools_support_community_panel.py:19-21 | on `main` (any letter case) the old header equals the newer panels' label |
| LegacySupportPanel.HeaderOnEmptyManifest | panels/mektools_support_community_panel.py:12-16 | an empty manifest reads "MekTools Unknown" here and "MekTools Unknown Version" in the newer panels |
| LegacySupportPanel.MainHasNoSlash | panels/mektools_support_community_panel.py:19 | a name that lowers to "main" holds no "/" |
| UpdateCheck.PopupOnlyWhenNewer | operators/update_operator.py:61-79 | a pop-up is scheduled only for the local manifest's branch (`main` when unnamed), and only when both manifests are present and the comparison says newer |
| UpdateCheck.CompareVersions | operators/update_operator.py:44-58 | off `main` and `dev` the result is whether the remote feature patch is larger; on them, raises exactly when the first differing version items are a number and a string, and is true exactly when the remote tuple is longer at that point or its item there is greater |
| UpdateCheck.CheckForUpdates | operators/update_operator.py:61-79 | no pop-up without a local or remote manifest; otherwise the pop-up for the local branch is scheduled exactly when the comparison says newer, and it raises exactly when the comparison does |
| UpdateCheck.CompareIgnores | operators/update_operator.py:44-58 | off `main` and `dev` the version numbers play no part; on them the patches play none |
| UpdateCheck.UnnamedFeatureComparesPatches | operators/update_operator.py:50-58 | a manifest without a feature name fetches `main` but compares only patches, so a newer `main` version with an equal patch schedules no pop-up |
| UpdateCheck.CompareOneWay | operators/update_operator.py:55-56 | on `main` and `dev` an update is never announced both ways, nor over the same version |

## Left out

- Quaternion, matrix and vector arithmetic are parameters of the model: `convert_space`, the root `diff`, `visual_transform_apply`, the `matrix` setter that places a pole bone, `Quaternion` built from three numbers (the exponential map), the export's relative matrices, and the spline offsets and positions. The model checks which values are copied where, not the arithmetic.
- Float parsing and formatting are parameters: `float()` on a rotation part, and the 6- and 8-decimal formatting of the export.
- Reading and writing files and the network are parameters: pose JSON, `bone_groups.json`, `manifest.json`, and the remote manifest fetch. The model takes the parsed values.
- A manifest value is modelled as a JSON object with `version` (a list of ints and strings, or a string), `feature_name` (a string) and `feature_patch` (an int). Other JSON types in those keys are not modelled.
- `append_mekrig` (an `eval` of an operator name) and `import_meddle_shader` are foreign calls and are not part of this model; only the racial-code table lookup is.
- Self-update, branch switching, restart, update pop-ups and timers, all `draw`/`poll` methods, preferences, icons and registration are UI or host plumbing and are not part of this model.
- `print` diagnostics are omitted. The `update_available` global is modelled as the value `compare_versions` returns.
- Python set and dict iteration order is a parameter (any enumeration) where the source iterates a set or a dict: the selected export groups and the restore loop over the captured parent map.
- `lower()` folds ASCII letters only, and `\d` matches ASCII digits only.
- The `ReferenceError` liveness checks are modelled as an explicit `live` flag on objects and bones.
- Host edit-bone removal is assumed to re-link children to the removed bone's parent; the final restore overrides every such link, and the merge outcome is proved not to depend on it.
- MeddleMerge.MergeArmatures: assumes that `object.join` appends the incoming armature's surviving bones after the reference's and joins bone collections by name; the host's handling of name clashes and edit-bone parent cycles is not modelled.
- MeddleObjects.MergeByMaterial: returns the identities of the objects that remain; the join's effect on mesh data is not modelled.
- MeddleObjects.MergeByNameMany: the same; the merged object is identified with the first match, which `object.join` keeps as the active object.
- PoseImport.LoadBone: a pose entry is modelled as a record of optional strings, so a bone entry that is not a JSON object, or a `Rotation` that is not a string, is not modelled; the source raises `TypeError` or `AttributeError` there (mektools/operators/import_pose.py:175-182).
- PoseImport.StoreCollectionVisibility: a `depth` bound stands for the recursion into child collections, which ends in the host because the collection tree is acyclic.
- PoseImport.RestoreCollectionVisibility: a `depth` bound stands for the walk up the parent collections, for the same reason.
- PoseSteps.CollectBones: a `depth` bound stands for the recursion into child bones, which ends because the bone tree is acyclic.
- SplineTail.GenerateTailSplineIk: the generated names are required to be fresh; Blender's `.001` renaming of clashing names is not modelled.
- SplineTail.GenerateTailSplineIk: every reference is required to be a bone of the armature; the `KeyError` a missing reference raises part-way through the run is not modelled.
- SplineTail.GenerateTailSplineIk: the last spline bone has zero length (its tail is its head), so Blender drops it on leaving edit mode; the model keeps it.
- Selection, `mode_set`, `duplicate_move`, `hook_assign` and `parent_clear` are modelled by their effect on the modelled state only.
- PoseSteps.ReverseTarget: takes a Copy constraint's target to be the armature being imported, and looks the sub-target up among its bones. A target that is another armature is not modelled. A target that is not an armature and has a sub-target raises `AttributeError` at `original_target.pose`; this is not modelled either.
- PoseExport.Basename: takes `/` as the only separator; on Windows `bpy.path.basename` also splits at `\`.
- PinOperators.DuplicatePin: the scene state holds no collection tree, so `create_collection` is modelled only by the name `newCollection` that the copies are linked to. That name is taken to be a fresh one, as Blender makes it by renaming clashes.
- PinOperators.DuplicatePin: `context.selected_objects` is taken to list the copies in the order they were made.
- PinOperators.DuplicatePin, PinOperators.DeletePin: `select_set` on an object outside the view layer raises in Blender; this is not modelled.
- `operators/fixer_operators.py` and the panels other than the version labels are not part of this model.

## Findings

| source | as written | input that shows it | evidently intended | confidence | as-written member | corrected member |
|---|---|---|---|---|---|---|
| operators/import_pose.py:176-184 | `load_bone` looks the pose record up with the pose-bone object (`pose.get(bone)` after `bone = arm.pose.bones[...]`), so a record keyed by bone names never matches and no bone is ever loaded | a record holding a readable `Rotation` for a bone the armature has, whose conversion changes that bone's rotation | look the record up by the bone's name, as the current `mektools/operators/import_pose.py` does | not executed | LegacyPoseImport.LegacyLoadMissesEntry | LegacyPoseImport.LoadedByNameExact |

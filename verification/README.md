# HelbreathRaylib core, modelled in Dafny

This project models the non-graphical core of the HelbreathRaylib game client
and proves properties of that model. The client is a C++ remake of the Helbreath
client on top of raylib. One Dafny module stands for each source file:

- **Pak** (`pak.dfy`): the PAK sprite archives of PAKLib.
  - The key-rotated XOR cipher with bit rotation, as an in-place array loop and as a
    function on byte sequences. The model proves that decryption inverts encryption,
    in both directions, and that any section of a file can be decrypted on its own
    given its offset.
  - The `loadpak` reader, taken over the bytes of the file. It checks the signatures,
    the sprite and rectangle counts and each entry's offset, with one error per check.
- **XSocket** (`xsocket.dfy`): the framing and obfuscation of the client socket.
  - A frame is the key, the 16-bit total length and the body. The body is obfuscated
    byte by byte with the key unless the key is 0.
  - `Send` builds frames and `Receive` splits a byte stream back into messages. Every
    sequence of messages sent survives the round trip.
- **MtdMap** (`mtd_map.dfy`): the tile grid `CMapData` and the `.mtd` map reader
  `LoadMTDFile`.
  - The reader is modelled once as written and once with the bounds checks the format
    needs (see Findings).
  - A loaded map holds the tile records of the file, row by row, and its checksum is
    verified.
- **InputBoxModel** (`input_box.dfy`): the editing core of the UI text box: text, cursor,
  selection, maximum length and character filter.
  - Every editing operation is a class method proved against a function on the edit
    state. That function's properties are proved as lemmas: the length limit, cursor
    bounds, cut/paste restoring the text, and arrows collapsing the selection.
  - A focus tracker shows that at most one box is focused.
- **ScissorStackModel** (`scissor_stack.dfy`): the clip-rectangle stack. Every pushed
  rectangle is intersected with the one below it, so the top of the stack clips to all
  of them.
- **AnimationModel** (`animation.dfy`): the frame-stepping sprite animation.
  - Looping, one-shot and reversed playback are covered.
  - The model proves the frame index after any number of steps.
- **EntityGeometry** and **EntityMovement** (`entity_geometry.dfy`, `entity_movement.dfy`):
  - the tile/pixel position of an entity, the 8-way direction to a point, and the
    64-bit tile keys;
  - tile occupancy, the Bresenham-style direct path, and the ring search for the
    nearest walkable target.
- **EntityManagerModel** (`entity_manager.dfy`): the entity registry. It keeps its
  insertion-ordered vector and its GUID map in step.
- **GeometryTypes**, **ColorTypes** and **PathUtils**:
  - rectangles with padding and margins;
  - the packed RGB332/RGB565/RGBA32 colours;
  - path sanitising, joining and file-name extraction.
- **PlayerModel** (`player.dfy`): equipping items by their metadata, and the
  sprite-sheet index arithmetic of player animations.
- **TableModelMod** (`table_model.dfy`): the cached table with a local change log and
  staged database operations. Replaying the pending log on the base rows gives the cache.
- **LayerStackModel** (`layer_stack.dfy`): the layer/overlay stack of the application
  core, including top-down event propagation.
- **TimerServiceModel** (`timer_service.dfy`): the browser timer service.
  - Repeating and one-shot timers advance by the frame time.
  - Cancellation is deferred to the end of the update.

Shared helpers live in `wrappers.dfy` (Option/Result), `bytes.dfy` (little-endian
fields) and `arith.dfy` (small arithmetic lemmas).

Integers are unbounded. Wrap-around is written out wherever the source relies on it:
- the `uint8_t` counter of the obfuscation;
- the 16-bit frame length;
- the 64-bit checksum sum;
- `uint16_t` tile coordinates;
- the `uint32_t` item id comparison;
- 64-bit sprite indices.

`float`/`double` quantities are modelled as Dafny `real`.

## Model

| member | source | states |
|---|---|---|
| Pak.RotateLeftRoundTrip | Sources/Dependencies/Includes/PAK.h:329-335 | rotating right by the same amount undoes an 8-bit left rotation |
| Pak.RotateRightRoundTrip | Sources/Dependencies/Includes/PAK.h:329-335 | rotating left by the same amount undoes an 8-bit right rotation |
| Pak.Rotation | Sources/Dependencies/Includes/PAK.h:346-348 | the rotation taken from a key byte is always below 8 |
| Pak.DecryptEncryptByte | Sources/Dependencies/Includes/PAK.h:337-373 | decrypting an encrypted byte with the same key byte gives the byte back |
| Pak.EncryptDecryptByte | Sources/Dependencies/Includes/PAK.h:337-373 | encrypting a decrypted byte with the same key byte gives the byte back |
| Pak.CipherRoundTrip | Sources/Dependencies/Includes/PAK.h:337-373 | over any buffer, key and start offset, decrypt inverts encrypt and encrypt inverts decrypt |
| Pak.DecryptSection | Sources/Dependencies/Includes/PAK.h:421-435 | decrypting a slice with its own start offset gives the same bytes as decrypting the whole file and slicing |
| Pak.DecryptConcat | Sources/Dependencies/Includes/PAK.h:337-354 | decrypting two adjacent pieces, the second at the first's end offset, equals decrypting their concatenation |
| Pak.DecryptBytes | Sources/Dependencies/Includes/PAK.h:337-354 | an empty key fails and leaves the buffer untouched; otherwise the buffer becomes the decryption of its old contents |
| Pak.EncryptBytes | Sources/Dependencies/Includes/PAK.h:356-373 | an empty key fails and leaves the buffer untouched; otherwise the buffer becomes the encryption of its old contents |
| Pak.U32Partial | Sources/Dependencies/Includes/PAK.h:78-79 | a count read from a possibly short stream fits in 32 bits |
| Pak.RectsAt | Sources/Dependencies/Includes/PAK.h:125-126 | reading `count` rectangle records yields exactly `count` rectangles |
| Pak.EntriesAt | Sources/Dependencies/Includes/PAK.h:88-89 | reading `count` sprite entries yields `count` entries whose offsets and sizes fit in 32 bits |
| Pak.ImageSizeFormulasAgree | Sources/Dependencies/Includes/PAK.h:138-142 | the image size `loadpak` computes agrees with the `loadpak_fast` formula whenever the entry is large enough, and is 0 otherwise |
| Pak.LoadPak | Sources/Dependencies/Includes/PAK.h:65-152 | the stream reader returns exactly the archive or the error of the decoding function |
| Pak.ReadSpritesStep | Sources/Dependencies/Includes/PAK.h:97-149 | one loop iteration: a failing sprite stops the loop with its error, a successful one is prepended to the rest |
| Pak.ReadSpriteShape | Sources/Dependencies/Includes/PAK.h:97-149 | a decoded sprite has 1 to 1000 rectangles and an image of the formula's length, and the next sprite starts right after it |
| Pak.ReadSpritesShape | Sources/Dependencies/Includes/PAK.h:97-149 | a successful read yields one sprite per remaining entry, each with 1 to 1000 rectangles, and the current entry starts at the read position |
| Pak.DecodePakShape | Sources/Dependencies/Includes/PAK.h:65-152 | an accepted file has 1 to 1500 sprites, one per entry, each with 1 to 1000 rectangles, the first starting right after the entry table |
| Pak.SpriteCountChecks | Sources/Dependencies/Includes/PAK.h:78-85 | a sprite count of 0 is rejected as "no sprites", one above 1500 as "too many" |
| Pak.RectCountChecks | Sources/Dependencies/Includes/PAK.h:117-122 | a rectangle count of 0 or above 1000 is rejected |
| XSocket.Send | Sources/Dependencies/Networking/XSocket.h:62-85 | no frame when the socket is not running or the payload exceeds 65535 bytes; otherwise the frame of the payload under the key |
| XSocket.ObfuscateInPlace | Sources/Dependencies/Networking/XSocket.h:78-85 | the header stays as it was and the body becomes its obfuscation |
| XSocket.ObfuscateAt | Sources/Dependencies/Networking/XSocket.h:80-84 | one byte obfuscated in place, every other byte unchanged |
| XSocket.DeobfuscateInPlace | Sources/Dependencies/Networking/XSocket.h:124-131 | the body becomes its deobfuscation |
| XSocket.DeobfuscateAt | Sources/Dependencies/Networking/XSocket.h:126-130 | one byte deobfuscated in place, every other byte unchanged |
| XSocket.Receive | Sources/Dependencies/Networking/XSocket.h:109-136 | the loop delivers exactly the message list the stream decodes to, in order |
| XSocket.ReceiveFrame | Sources/Dependencies/Networking/XSocket.h:115-133 | a complete frame advances the position and contributes its message; an incomplete one ends decoding |
| XSocket.ReadFrame | Sources/Dependencies/Networking/XSocket.h:115-133 | reading a complete frame adds its message to the decoded prefix and continues after it |
| XSocket.DecodedStops | Sources/Dependencies/Networking/XSocket.h:115-122 | a stream too short for a header or for the announced body decodes to no more messages |
| XSocket.DecodedStep | Sources/Dependencies/Networking/XSocket.h:115-133 | a complete frame decodes to its deobfuscated body followed by the rest of the stream |
| XSocket.ReadBody | Sources/Dependencies/Networking/XSocket.h:117-132 | the body read is the deobfuscation of the announced number of bytes under the frame's key |
| XSocket.ByteRoundTrip | Sources/Dependencies/Networking/XSocket.h:78-85 | deobfuscating an obfuscated byte at the same index gives it back |
| XSocket.MaskRoundTrip | Sources/Dependencies/Networking/XSocket.h:124-131 | subtracting the add mask after the xor mask undoes adding and xoring |
| XSocket.BodyRoundTrip | Sources/Dependencies/Networking/XSocket.h:78-131 | deobfuscation inverts obfuscation for every body and key |
| XSocket.FrameLayout | Sources/Dependencies/Networking/XSocket.h:69-78 | a frame is 3 bytes longer than its payload, begins with the key and the 16-bit total, and carries the payload unchanged under key 0 |
| XSocket.SizeRecovered | Sources/Dependencies/Networking/XSocket.h:118-119 | the receiver recovers every payload size up to 65535 from the header, even where the total wraps |
| XSocket.HeaderTotal | Sources/Dependencies/Networking/XSocket.h:71-73 | the two length bytes of the header hold the 16-bit total |
| XSocket.WrappedTotal | Sources/Dependencies/Networking/XSocket.h:71-73 | subtracting the header size from the wrapped total, modulo 2^16, gives the payload size |
| XSocket.FrameRoundTrip | Sources/Dependencies/Networking/XSocket.h:62-136 | a frame followed by any bytes decodes to its payload followed by what those bytes decode to |
| XSocket.StreamRoundTrip | Sources/Dependencies/Networking/XSocket.h:62-136 | the concatenated frames of any messages decode to exactly their payloads |
| MtdMap.MapData.constructor | Sources/HelbreathRaylib/CMap.h:51-55 | a map of the given size, names and tile size with every tile default |
| MtdMap.MapData.GetTile | Sources/HelbreathRaylib/CMap.h:57-68 | null exactly for coordinates outside the map, otherwise the tile at them |
| MtdMap.ShortFileReadsPastEnd | Sources/HelbreathRaylib/CMap.h:160-193 | a 15-byte file passes the size check as written and then is read past its end; the corrected check rejects it |
| MtdMap.CheckLayoutCorrectsAsWritten | Sources/HelbreathRaylib/CMap.h:159-213 | the corrected header checks agree with the code as written wherever it is defined, and reject as truncated every file it would overread or throw on |
| MtdMap.RestWellFormed | Sources/HelbreathRaylib/CMap.h:188-213 | an accepted remainder of the header leaves room for the padding, the tag, every tile record and the trailer |
| MtdMap.LayoutWellFormed | Sources/HelbreathRaylib/CMap.h:159-213 | every accepted header describes a file long enough for all of its tiles |
| MtdMap.TileOffsetInArea | Sources/HelbreathRaylib/CMap.h:226-237 | every in-map tile record lies inside the tile area |
| MtdMap.TileOffsetInjective | Sources/HelbreathRaylib/CMap.h:226-237 | distinct tiles are read from distinct records |
| MtdMap.RowsAfter | Sources/HelbreathRaylib/CMap.h:226-237 | rows are laid out in increasing order |
| MtdMap.RowEndInArea | Sources/HelbreathRaylib/CMap.h:226-237 | every row ends inside the tile area |
| MtdMap.NextRow | Sources/HelbreathRaylib/CMap.h:226-237 | the record after the last one of a row is the first one of the next row |
| MtdMap.SumStep | Sources/HelbreathRaylib/CMap.h:217-219 | each byte adds its value plus its index to the checksum sum |
| MtdMap.SumModStep | Sources/HelbreathRaylib/CMap.h:217-219 | accumulating in a wrapping 64-bit sum gives the true sum modulo 2^64 |
| MtdMap.Mod64Mod32 | Sources/HelbreathRaylib/CMap.h:217-219 | truncating the 64-bit sum to 32 bits equals truncating the true sum |
| MtdMap.ComputeChecksum | Sources/HelbreathRaylib/CMap.h:216-219 | the checksum loop computes the specified checksum of the tile bytes and file size |
| MtdMap.FillTiles | Sources/HelbreathRaylib/CMap.h:225-237 | every tile of the grid holds the record at its row-major offset |
| MtdMap.FillRow | Sources/HelbreathRaylib/CMap.h:228-236 | one row's tiles hold their records, other rows are unchanged, and the read position ends at the next row |
| MtdMap.LoadMtdFile | Sources/HelbreathRaylib/CMap.h:146-244 | a failure carries the decoder's error; a success is a new map with the header's dimensions and names and every tile read from its record |
| MtdMap.LoadLaidOut | Sources/HelbreathRaylib/CMap.h:216-243 | after a good header the loader fails exactly on a checksum mismatch, and otherwise builds the map of the file |
| MtdMap.DecodeOutcome | Sources/HelbreathRaylib/CMap.h:216-223 | decoding fails with the layout's error, or succeeds with its header exactly when the checksum matches |
| MtdMap.ChecksumDecides | Sources/HelbreathRaylib/CMap.h:216-223 | with a good header, a computed checksum different from the stored one rejects the file and an equal one accepts it |
| MtdMap.BuildMap | Sources/HelbreathRaylib/CMap.h:225-237 | a new map with the header's fields whose every tile is read from its record |
| MtdMap.RejectsShortOrUnsigned | Sources/HelbreathRaylib/CMap.h:160-169 | files under 15 bytes are invalid; longer files without the "<MTD>" magic have an invalid header |
| MtdMap.AcceptedFileShape | Sources/HelbreathRaylib/CMap.h:195-223 | an accepted file has positive dimensions, room for all tiles and a matching checksum |
| MtdMap.RejectsBadChecksum | Sources/HelbreathRaylib/CMap.h:216-223 | a well-laid-out file is accepted exactly when its stored checksum equals the computed one |
| InputBoxModel.SetTextResult | Sources/HelbreathRaylib/UI/InputBox.cpp:39-55 | the new text is truncated to a non-negative limit, the cursor is clamped into it and the selection cleared |
| InputBoxModel.ClearResult | Sources/HelbreathRaylib/UI/InputBox.cpp:57-66 | clearing leaves an empty text, cursor 0 and no selection |
| InputBoxModel.SetMaxLengthResult | Sources/HelbreathRaylib/UI/InputBox.cpp:68-81 | a text longer than the new limit is truncated to it with the selection cleared; otherwise nothing changes |
| InputBoxModel.InsertResult | Sources/HelbreathRaylib/UI/InputBox.cpp:590-608 | insertion keeps the text within the limit, keeps the characters around the cursor, and inserts exactly the prefix of the input that fits, after which the cursor sits |
| InputBoxModel.DeleteSelectionResult | Sources/HelbreathRaylib/UI/InputBox.cpp:480-493 | the selected range is removed, the cursor placed at its start and the selection cleared |
| InputBoxModel.MoveCursorResult | Sources/HelbreathRaylib/UI/InputBox.cpp:495-512 | the cursor moves to the clamped position; selecting keeps or sets the anchor and extends the selection to the cursor |
| InputBoxModel.ArrowCollapsesSelection | Sources/HelbreathRaylib/UI/InputBox.cpp:514-534 | with a selection, left goes to its start and right to its end, each clearing it |
| InputBoxModel.BackspaceResult | Sources/HelbreathRaylib/UI/InputBox.cpp:620-631 | backspace at the start does nothing; otherwise it removes the character before the cursor and moves the cursor back |
| InputBoxModel.CutPasteRestores | Sources/HelbreathRaylib/UI/InputBox.cpp:432-451 | cutting a selection and pasting it back restores the text, with the cursor after the pasted text |
| InputBoxModel.CutResult | Sources/HelbreathRaylib/UI/InputBox.cpp:435-441 | cut yields text exactly when there is a selection, and that text is the selected range |
| InputBoxModel.PasteResult | Sources/HelbreathRaylib/UI/InputBox.cpp:444-451 | an empty clipboard changes nothing; otherwise the selection is replaced by the prefix of the clipboard that fits |
| InputBoxModel.DeleteKeyKeepsGood | Sources/HelbreathRaylib/UI/InputBox.cpp:335-343 | the Delete key keeps the text within its limit and the cursor and selection within the text |
| InputBoxModel.MovesKeepGood | Sources/HelbreathRaylib/UI/InputBox.cpp:468-534 | select-all and arrow moves keep cursor and selection within the text |
| InputBoxModel.TypeKeyKeepsGood | Sources/HelbreathRaylib/UI/InputBox.cpp:351-374 | a typed key keeps the text within its limit and the cursor and selection within the text |
| InputBoxModel.CharacterFilter | Sources/HelbreathRaylib/UI/InputBox.cpp:101-104 | with no filter every character is allowed; with one, exactly the listed characters are |
| InputBoxModel.InputBox.constructor | Sources/HelbreathRaylib/UI/InputBox.h:32-120 | empty text, cursor 0, no selection, not focused, no filter (lines 110-120), and the default maximum length 32767 (line 32) |
| InputBoxModel.InputBox.ClearSelection | Sources/HelbreathRaylib/UI/InputBox.cpp:463-466 | the selection is cleared; everything else is unchanged |
| InputBoxModel.InputBox.SetText | Sources/HelbreathRaylib/UI/InputBox.cpp:39-55 | the box takes the state the set-text operation specifies and stays consistent |
| InputBoxModel.InputBox.Clear | Sources/HelbreathRaylib/UI/InputBox.cpp:57-66 | the box takes the cleared state and stays consistent |
| InputBoxModel.InputBox.SetMaxLength | Sources/HelbreathRaylib/UI/InputBox.cpp:68-81 | the limit is stored and the text truncated to it, keeping the box consistent |
| InputBoxModel.InputBox.SetAllowedCharacters | Sources/HelbreathRaylib/UI/InputBox.cpp:91-94 | the filter is the given characters and is active exactly when they are non-empty |
| InputBoxModel.InputBox.InsertText | Sources/HelbreathRaylib/UI/InputBox.cpp:590-608 | the box takes the state of the insertion operation and stays consistent |
| InputBoxModel.InputBox.SelectAll | Sources/HelbreathRaylib/UI/InputBox.cpp:468-471 | the whole text is selected; the cursor does not move |
| InputBoxModel.InputBox.DeleteSelection | Sources/HelbreathRaylib/UI/InputBox.cpp:480-493 | the box takes the state of deleting the selection |
| InputBoxModel.InputBox.MoveCursor | Sources/HelbreathRaylib/UI/InputBox.cpp:495-512 | the box takes the state of the cursor move |
| InputBoxModel.InputBox.MoveCursorLeft | Sources/HelbreathRaylib/UI/InputBox.cpp:514-523 | the box takes the state of the left-arrow move |
| InputBoxModel.InputBox.MoveCursorRight | Sources/HelbreathRaylib/UI/InputBox.cpp:525-534 | the box takes the state of the right-arrow move |
| InputBoxModel.InputBox.MoveCursorToStart | Sources/HelbreathRaylib/UI/InputBox.cpp:536-538 | the cursor moves to position 0 |
| InputBoxModel.InputBox.MoveCursorToEnd | Sources/HelbreathRaylib/UI/InputBox.cpp:540-542 | the cursor moves to the end of the text |
| InputBoxModel.InputBox.DeleteCharacterAtCursor | Sources/HelbreathRaylib/UI/InputBox.cpp:610-618 | the character at the cursor, if any, is removed |
| InputBoxModel.InputBox.DeleteCharacterBeforeCursor | Sources/HelbreathRaylib/UI/InputBox.cpp:620-631 | the character before the cursor, if any, is removed and the cursor moves back |
| InputBoxModel.InputBox.Cut | Sources/HelbreathRaylib/UI/InputBox.cpp:435-441 | the selected text goes to the clipboard result and is deleted |
| InputBoxModel.InputBox.Paste | Sources/HelbreathRaylib/UI/InputBox.cpp:444-451 | the selection is replaced by what fits of the clipboard |
| InputBoxModel.InputBox.PressBackspace | Sources/HelbreathRaylib/UI/InputBox.cpp:324-332 | Backspace deletes the selection if there is one, otherwise the character before the cursor |
| InputBoxModel.InputBox.PressDelete | Sources/HelbreathRaylib/UI/InputBox.cpp:335-343 | Delete deletes the selection if there is one, otherwise the character at the cursor |
| InputBoxModel.InputBox.HandleTextInput | Sources/HelbreathRaylib/UI/InputBox.cpp:351-374 | each queued key is inserted in order when printable, allowed by the filter and within the limit |
| InputBoxModel.InputBox.Blur | Sources/HelbreathRaylib/UI/InputBox.cpp:124-136 | the box loses focus and its selection, stops being the active box if it was, and the focus tracker keeps its at-most-one-focused invariant |
| InputBoxModel.InputBox.Focus | Sources/HelbreathRaylib/UI/InputBox.cpp:106-122 | the box becomes the active box with its text, limit and filter kept; the previously active box loses focus and its selection, keeping its text, cursor, limit and filter |
| InputBoxModel.InputBox.BlurIfValid | Sources/HelbreathRaylib/UI/InputBox.cpp:124-136 | the active box, blurred, leaves no box active; only its selection is cleared, and its limit and filter are kept |
| InputBoxModel.FocusTracker.constructor | Sources/HelbreathRaylib/UI/InputBox.cpp:9 | no box is active at start |
| InputBoxModel.AtMostOneFocused | Sources/HelbreathRaylib/UI/InputBox.cpp:106-136 | two focused boxes under one tracker are the same box |
| ScissorStackModel.Intersect | Sources/HelbreathRaylib/UI/ScissorStack.h:22-34 | the intersection never has a negative width or height |
| ScissorStackModel.IntersectContains | Sources/HelbreathRaylib/UI/ScissorStack.h:22-34 | a point is in the intersection exactly when it is in both rectangles |
| ScissorStackModel.IntersectCommutes | Sources/HelbreathRaylib/UI/ScissorStack.h:22-34 | intersection does not depend on the order of the rectangles |
| ScissorStackModel.IntersectInside | Sources/HelbreathRaylib/UI/ScissorStack.h:22-34 | a non-empty intersection lies inside both rectangles |
| ScissorStackModel.PushAllClipsToAll | Sources/HelbreathRaylib/UI/ScissorStack.h:38-48 | after pushes onto an empty stack, a point is inside the top rectangle exactly when it lies in every pushed rectangle |
| ScissorStackModel.ScissorStack.constructor | Sources/HelbreathRaylib/UI/ScissorStack.h:183-184 | the stack starts empty with scissoring off |
| ScissorStackModel.ScissorStack.ApplyCurrentScissor | Sources/HelbreathRaylib/UI/ScissorStack.h:132-176 | scissoring is on exactly when the top of the stack has positive size |
| ScissorStackModel.ScissorStack.Push | Sources/HelbreathRaylib/UI/ScissorStack.h:38-48 | the first push stores the rectangle; later ones store its intersection with the top |
| ScissorStackModel.ScissorStack.Pop | Sources/HelbreathRaylib/UI/ScissorStack.h:60-71 | popping an empty stack does nothing; otherwise the top is removed |
| ScissorStackModel.ScissorStack.GetCurrent | Sources/HelbreathRaylib/UI/ScissorStack.h:74-84 | the top of the stack, or the whole screen when it is empty |
| ScissorStackModel.ScissorStack.GetDepth | Sources/HelbreathRaylib/UI/ScissorStack.h:92-94 | the depth is 0 exactly when the stack is empty |
| ScissorStackModel.ScissorStack.Clear | Sources/HelbreathRaylib/UI/ScissorStack.h:97-100 | the stack is emptied and scissoring turned off |
| ScissorStackModel.ScopedScissor | Sources/HelbreathRaylib/UI/ScissorStack.h:103-126 | a push and its matching pop leave the stack as it was |
| AnimationModel.ResetFrame | Sources/HelbreathRaylib/Animation.h:70-74 | a reset starts at the last frame when reversed and at frame 0 otherwise |
| AnimationModel.NextFrameInRange | Sources/HelbreathRaylib/Animation.h:89-104 | a step from a valid frame gives a valid frame |
| AnimationModel.LoopWraps | Sources/HelbreathRaylib/Animation.h:89-104 | a looping animation wraps from the last frame to 0, and in reverse from 0 to the last |
| AnimationModel.LoopForwardSteps | Sources/HelbreathRaylib/Animation.h:89-104 | n forward looping steps advance the frame by n modulo the frame count |
| AnimationModel.LoopReverseSteps | Sources/HelbreathRaylib/Animation.h:89-104 | n reverse looping steps move the frame back by n modulo the frame count |
| AnimationModel.OnceForwardSteps | Sources/HelbreathRaylib/Animation.h:89-104 | n forward one-shot steps advance the frame by n but stop at the last frame |
| AnimationModel.OnceReverseSteps | Sources/HelbreathRaylib/Animation.h:89-104 | n reverse one-shot steps move the frame back by n but stop at frame 0 |
| AnimationModel.FinishedStays | Sources/HelbreathRaylib/Animation.h:110-114 | a finished one-shot animation no longer moves, and a looping one never finishes |
| AnimationModel.Animation.Empty | Sources/HelbreathRaylib/Animation.h:24-26 | the default animation is empty, looping, forward, with the default delay |
| AnimationModel.Animation.constructor | Sources/HelbreathRaylib/Animation.h:28-40 | the animation takes the given count, delay, loop and direction and starts at its reset frame |
| AnimationModel.Animation.Copy | Sources/HelbreathRaylib/Animation.h:42-50 | a copy takes the other's settings and starts at its own reset frame |
| AnimationModel.Animation.Assign | Sources/HelbreathRaylib/Animation.h:52-65 | self-assignment changes nothing; otherwise the settings are copied and the frame reset |
| AnimationModel.Animation.Reset | Sources/HelbreathRaylib/Animation.h:70-74 | the frame returns to its reset value and the timer to 0 |
| AnimationModel.Animation.Update | Sources/HelbreathRaylib/Animation.h:79-105 | an empty, single-frame or not-yet-due animation keeps its frame; otherwise it takes one step and records the time |
| EntityGeometry.DirIndex | Sources/HelbreathRaylib/entity.h:75-120 | the eight directions are numbered 0 to 7 |
| EntityGeometry.Opposite | Sources/HelbreathRaylib/entity.h:75-120 | the opposite direction is four steps round the compass |
| EntityGeometry.ToU16 | Sources/HelbreathRaylib/entity.h:35-38 | a tile coordinate stored as `uint16_t` is below 2^16 and unchanged when it already fits |
| EntityGeometry.MakePosition | Sources/HelbreathRaylib/entity.h:35-38 | a position's tile coordinates are stored as 16-bit values and its pixel coordinates are 32 times those |
| EntityGeometry.SetPixelPosition | Sources/HelbreathRaylib/entity.h:45-48 | setting pixels keeps the tile and stores the pixel coordinates |
| EntityGeometry.PixelMoveKeepsTile | Sources/HelbreathRaylib/entity.h:45-52 | moving in pixels never changes the tile |
| EntityGeometry.DirectionSpecialCases | Sources/HelbreathRaylib/entity.h:84-118 | the same tile gives North, straight right gives East, straight down gives South |
| EntityGeometry.DirectionReverses | Sources/HelbreathRaylib/entity.h:75-120 | negating the offset gives the opposite direction |
| EntityGeometry.SwappedEndpointsOpposite | Sources/HelbreathRaylib/entity.h:75-120 | looking back from the target gives the opposite direction |
| EntityGeometry.StepDirection | Sources/HelbreathRaylib/entity.h:75-120 | the unit step of a direction points in that direction |
| EntityGeometry.BitOrDisjoint | Sources/HelbreathRaylib/entity.h:203-205 | OR-ing a value below 2^k into a multiple of 2^k adds it |
| EntityGeometry.TileKeyValue | Sources/HelbreathRaylib/entity.h:203-205 | the tile key of in-range coordinates is x·2^32 + y |
| EntityGeometry.TileKeyInjective | Sources/HelbreathRaylib/entity.h:203-205 | distinct in-range tiles have distinct keys |
| EntityManagerModel.FirstWithGuid | Sources/HelbreathRaylib/EntityManager.h:62-81 | the index of the first entity with the GUID, or -1 exactly when no entity has it |
| EntityManagerModel.EraseGuid | Sources/HelbreathRaylib/EntityManager.h:62-81 | erasing one entry from a GUID-distinct vector removes exactly its GUID |
| EntityManagerModel.EraseAgrees | Sources/HelbreathRaylib/EntityManager.h:62-81 | a registered GUID is found in the vector, and erasing it from both containers keeps them in step |
| EntityManagerModel.EraseKeepsOthers | Sources/HelbreathRaylib/EntityManager.h:62-81 | erasing one vector entry keeps every other entity the map points to |
| EntityManagerModel.CountIsMapSize | Sources/HelbreathRaylib/EntityManager.h:90-92 | the entity count equals the number of GUIDs in the map |
| EntityManagerModel.EntityManager.constructor | Sources/HelbreathRaylib/EntityManager.h:11 | the registry starts empty |
| EntityManagerModel.EntityManager.Get | Sources/HelbreathRaylib/EntityManager.h:41-47 | null exactly for unknown GUIDs; otherwise the registered entity with that GUID |
| EntityManagerModel.EntityManager.Add | Sources/HelbreathRaylib/EntityManager.h:23-38 | the entity is appended and mapped; with a fresh GUID the containers stay in step and the count grows by one |
| EntityManagerModel.EntityManager.FindInVector | Sources/HelbreathRaylib/EntityManager.h:64-65 | the search returns the first vector index with the GUID, or -1 |
| EntityManagerModel.EntityManager.Remove | Sources/HelbreathRaylib/EntityManager.h:62-81 | true exactly for a registered GUID, which then leaves both containers; false changes nothing |
| EntityManagerModel.EntityManager.Clear | Sources/HelbreathRaylib/EntityManager.h:84-87 | both containers are emptied |
| EntityMovement.IsTileOccupied | Sources/HelbreathRaylib/entity.cpp:155-171 | a tile is occupied exactly when its key is reserved or another entity stands on it |
| EntityMovement.CanStepOn | Sources/HelbreathRaylib/entity.cpp:324-325 | a path may step on a tile exactly when it is walkable and not occupied |
| EntityMovement.Advance | Sources/HelbreathRaylib/entity.cpp:315-320 | moving n steps along a non-zero direction changes the coordinate by n |
| EntityMovement.LineWalk | Sources/HelbreathRaylib/entity.cpp:309-322 | the minor coordinate moves at most once per step and the error term stays in [0, major) |
| EntityMovement.LineWalkError | Sources/HelbreathRaylib/entity.cpp:309-322 | the error term after i steps is major/2 − i·minor + k·major |
| EntityMovement.WalkStep | Sources/HelbreathRaylib/entity.cpp:309-322 | each step moves the minor coordinate by 0 or 1 |
| EntityMovement.WalkEnds | Sources/HelbreathRaylib/entity.cpp:309-322 | after major steps the minor coordinate has moved exactly minor times |
| EntityMovement.WalkMonotone | Sources/HelbreathRaylib/entity.cpp:309-322 | the minor coordinate never moves backwards |
| EntityMovement.Line | Sources/HelbreathRaylib/entity.cpp:332-336 | the line holds one point per step, in order, excluding the start |
| EntityMovement.LineEnds | Sources/HelbreathRaylib/entity.cpp:332-336 | the line starts at the start tile and reaches the end tile exactly at its last step |
| EntityMovement.WalkReaches | Sources/HelbreathRaylib/entity.cpp:332-336 | after all steps both coordinates reach the end |
| EntityMovement.AdvanceReaches | Sources/HelbreathRaylib/entity.cpp:332-336 | a coordinate reaches its target exactly after |d| steps |
| EntityMovement.LineAvoidsStart | Sources/HelbreathRaylib/entity.cpp:313-315 | no point of the line is the start tile |
| EntityMovement.LineAdjacent | Sources/HelbreathRaylib/entity.cpp:313-322 | consecutive points of the line are neighbouring tiles |
| EntityMovement.XMajorStep | Sources/HelbreathRaylib/entity.cpp:313-322 | on an x-major line each step moves x by one |
| EntityMovement.YMajorStep | Sources/HelbreathRaylib/entity.cpp:345-354 | on a y-major line each step moves y by one |
| EntityMovement.LineInBox | Sources/HelbreathRaylib/entity.cpp:287-373 | every point of the line lies in the box spanned by its ends |
| EntityMovement.BuildPathDirect | Sources/HelbreathRaylib/entity.cpp:287-373 | the path is the longest free prefix of the line, and reached holds exactly when the whole line is free |
| EntityMovement.FreePrefixExtend | Sources/HelbreathRaylib/entity.cpp:324-330 | appending the next free line point keeps a free prefix |
| EntityMovement.FreePrefixLine | Sources/HelbreathRaylib/entity.cpp:324-330 | a free prefix is a prefix of the line |
| EntityMovement.StepXMajor | Sources/HelbreathRaylib/entity.cpp:313-322 | one x-major step moves to the next line point and updates the error term |
| EntityMovement.XMajorPass | Sources/HelbreathRaylib/entity.cpp:313-337 | a blocked point stops the walk; a free one extends the path, which reaches the end at the last step |
| EntityMovement.WalkXMajor | Sources/HelbreathRaylib/entity.cpp:307-338 | the x-major walk returns a free prefix that stops only at a blocked point |
| EntityMovement.StepYMajor | Sources/HelbreathRaylib/entity.cpp:345-354 | one y-major step moves to the next line point and updates the error term |
| EntityMovement.YMajorPass | Sources/HelbreathRaylib/entity.cpp:345-369 | a blocked point stops the walk; a free one extends the path, which reaches the end at the last step |
| EntityMovement.WalkYMajor | Sources/HelbreathRaylib/entity.cpp:339-370 | the y-major walk returns a free prefix that stops only at a blocked point |
| EntityMovement.HasWalkableNeighbour | Sources/HelbreathRaylib/entity.cpp:122-141 | true exactly when one of the eight neighbours is walkable |
| EntityMovement.CheckCandidate | Sources/HelbreathRaylib/entity.cpp:109-143 | a candidate is accepted exactly when it is in the map, walkable and has a walkable neighbour |
| EntityMovement.FirstHitUnique | Sources/HelbreathRaylib/entity.cpp:97-147 | the first acceptable tile in search order is unique |
| EntityMovement.SearchColumn | Sources/HelbreathRaylib/entity.cpp:101-147 | finds the first ring tile of a column in order, or reports that there is none |
| EntityMovement.SearchRing | Sources/HelbreathRaylib/entity.cpp:99-148 | finds the first acceptable tile of a ring in search order, or reports that the ring has none |
| EntityMovement.SearchRings | Sources/HelbreathRaylib/entity.cpp:97-149 | finds the first acceptable tile over all rings, or reports that none exists |
| EntityMovement.ClampToMap | Sources/HelbreathRaylib/entity.cpp:78-82 | the clamped coordinate is in the map and unchanged when it already was |
| EntityMovement.FindValidTarget | Sources/HelbreathRaylib/entity.cpp:72-153 | the clamped target if acceptable, else the first acceptable tile around it, else the current position |
| EntityMovement.Mover.StopMovement | Sources/HelbreathRaylib/entity.cpp:497-510 | movement stops, both paths are cleared, the stand animation is set, a held tile reservation is released, and the reservation key is 0 afterwards whenever there is a reservation set (unchanged otherwise) |
| GeometryTypes.Right | Sources/Dependencies/Includes/geometry_types.h:119-121 | the right edge lies one width past the origin |
| GeometryTypes.Bottom | Sources/Dependencies/Includes/geometry_types.h:123-125 | the bottom edge lies one height past the origin |
| GeometryTypes.Shrink | Sources/Dependencies/Includes/geometry_types.h:85-92 | each edge moves inward by its inset |
| GeometryTypes.Grow | Sources/Dependencies/Includes/geometry_types.h:94-101 | each edge moves outward by its inset |
| GeometryTypes.ShrinkGrowInverse | Sources/Dependencies/Includes/geometry_types.h:85-101 | adding and subtracting the same padding, in either order, gives the rectangle back |
| GeometryTypes.ContainsHalfOpen | Sources/Dependencies/Includes/geometry_types.h:105-108 | containment includes the left and top edges and excludes the right and bottom ones; an empty rectangle contains nothing |
| GeometryTypes.IntersectsSymmetric | Sources/Dependencies/Includes/geometry_types.h:112-117 | intersection is symmetric |
| GeometryTypes.IntersectsWitness | Sources/Dependencies/Includes/geometry_types.h:105-117 | rectangles sharing a point intersect; intersecting non-empty rectangles share a named point |
| GeometryTypes.ShrinkInside | Sources/Dependencies/Includes/geometry_types.h:85-108 | with non-negative insets, the padded area lies inside the rectangle and the rectangle inside the grown one |
| GeometryTypes.WithMargin | Sources/Dependencies/Includes/geometry_types.h:144-146 | removing the margin from the outer rectangle gives the rectangle back |
| GeometryTypes.WithPadding | Sources/Dependencies/Includes/geometry_types.h:169-171 | adding the padding back to the content area gives the rectangle |
| GeometryTypes.BoxWithPadding | Sources/Dependencies/Includes/geometry_types.h:195-197 | a box's content area is the padded rectangle's |
| GeometryTypes.BoxWithMargin | Sources/Dependencies/Includes/geometry_types.h:203-205 | a box's outer rectangle is the margin rectangle's |
| ColorTypes.Pack8 | Sources/Dependencies/Includes/color_types.h:12 | RGB332 holds the top 3 bits of red and green and the top 2 of blue |
| ColorTypes.Pack16 | Sources/Dependencies/Includes/color_types.h:13 | RGB565 holds the top 5, 6 and 5 bits of red, green and blue |
| ColorTypes.MakeRGB | Sources/Dependencies/Includes/color_types.h:11-15 | the three packings of the channels, with red, green and blue in the low three bytes of the 32-bit value |
| ColorTypes.RGBToColor | Sources/Dependencies/Includes/color_types.h:20-22 | converting to `Color` is fully opaque |
| ColorTypes.RGBColorRoundTrip | Sources/Dependencies/Includes/color_types.h:11-22 | converting a constructed `RGB` gives back its channels |
| ColorTypes.MakeRGBA | Sources/Dependencies/Includes/color_types.h:36-40 | the packings of the channels, whose getters return the four channels |
| ColorTypes.RGBAToColor | Sources/Dependencies/Includes/color_types.h:51-58 | converting to `Color` loses nothing: packing the `Color`'s channels again gives back the same 32-bit value |
| ColorTypes.RGBAToColorRef | Sources/Dependencies/Includes/color_types.h:60-64 | the `COLORREF` has no alpha byte |
| ColorTypes.RGBAColorRoundTrip | Sources/Dependencies/Includes/color_types.h:36-58 | converting a constructed `RGBA` gives back its four channels |
| ColorTypes.RGBAInjective | Sources/Dependencies/Includes/color_types.h:36-45 | two constructed `RGBA` values are equal exactly when their channels are |
| ColorTypes.RGBAPackingsAgree | Sources/Dependencies/Includes/color_types.h:37-38 | `RGBA` and `RGB` of the same channels have the same 8- and 16-bit packings |
| ColorTypes.RGBAColorRefAgrees | Sources/Dependencies/Includes/color_types.h:60-64 | `RGBA` and `RGB` of the same channels give the same `COLORREF` |
| PathUtils.SeparatorsDiffer | Sources/Dependencies/Includes/path_utils.h:69-75 | the separator and the alternative separator differ on each platform |
| PathUtils.Sanitized | Sources/Dependencies/Includes/path_utils.h:77-83 | each character is kept, except that an alternative separator becomes the separator |
| PathUtils.SanitizedProperties | Sources/Dependencies/Includes/path_utils.h:77-83 | sanitising keeps the length, leaves no alternative separator, changes nothing else and is idempotent |
| PathUtils.SanitizedFixed | Sources/Dependencies/Includes/path_utils.h:77-83 | a string without alternative separators is already sanitised |
| PathUtils.SanitizePath | Sources/Dependencies/Includes/path_utils.h:77-83 | the in-place loop computes the sanitised string |
| PathUtils.AppendPathPart | Sources/Dependencies/Includes/path_utils.h:85-95 | the sanitised part is appended after exactly one separator, with none added to an empty result or one that ends with a separator |
| PathUtils.AppendedNoAltSep | Sources/Dependencies/Includes/path_utils.h:85-95 | appending keeps a path free of alternative separators |
| PathUtils.CombinedNoAltSep | Sources/Dependencies/Includes/path_utils.h:97-106 | a combined path has no alternative separator |
| PathUtils.PathCombine | Sources/Dependencies/Includes/path_utils.h:97-106 | the loop joins the parts left to right, leaving no alternative separator |
| PathUtils.LastIndexOf | Sources/Dependencies/Includes/path_utils.h:112-121 | the last index holding the character, or none exactly when it does not occur |
| PathUtils.LastSeparator | Sources/Dependencies/Includes/path_utils.h:112-121 | the position of a separator of either kind, with none after it |
| PathUtils.GetFilename | Sources/Dependencies/Includes/path_utils.h:108-124 | a suffix of the path without separators, preceded by a separator unless it is the whole path |
| PathUtils.GetFilenameNoExt | Sources/Dependencies/Includes/path_utils.h:126-148 | the file name up to its last '.', or the whole name when it has none |
| PlayerModel.ToU32 | Sources/HelbreathRaylib/player.h:33-34 | the `uint32_t` conversion keeps values that fit and adds 2^32 to negative ones |
| Wrappers.FirstWhere | Sources/HelbreathRaylib/player.h:33-34 | the index of the first element satisfying the predicate, or none exactly when no element does: the `find_if` of `TryEquip` here, and also of `TableModel::update`/`remove` (TableModel.h:33-34) and `LayerStack::GetLayer` (Layer.cpp:85-92) |
| PlayerModel.Equip.constructor | Sources/HelbreathRaylib/player.h:49 | an empty slot of the given type holds id -1 |
| PlayerModel.Equip.TryEquip | Sources/HelbreathRaylib/player.h:31-42 | equipping succeeds exactly when the first entry with the id fits the slot, and only then stores the id |
| PlayerModel.Equip.Unequip | Sources/HelbreathRaylib/player.h:44 | the slot becomes empty |
| PlayerModel.UniqueIdsDecide | Sources/HelbreathRaylib/player.h:31-42 | with unique ids, equipping succeeds exactly when some entry with the id fits the slot |
| PlayerModel.NegativeIdIsLarge | Sources/HelbreathRaylib/player.h:34 | a negative 16-bit id compares as an unsigned id of at least 2^32 − 2^15 |
| PlayerModel.PlayerAnimation | Sources/HelbreathRaylib/player.h:141-178 | the index is the base plus the animation offset, wrapped to 64 bits |
| PlayerModel.RunIgnoresStance | Sources/HelbreathRaylib/player.h:151-152 | running uses the same index whatever the stance or weapon |
| PlayerModel.WeaponOnlyForCombatAttack | Sources/HelbreathRaylib/player.h:154-164 | the weapon changes the index only for a combat-stance attack |
| PlayerModel.HairAnimationIndex | Sources/HelbreathRaylib/player.h:189-222 | an out-of-range hair style gives 0; otherwise the style's base for the gender plus the offset |
| PlayerModel.ItemBase | Sources/HelbreathRaylib/player.h:235-238 | an item's sheet starts 24 indices per item after the start, wrapped to 64 bits |
| PlayerModel.ItemSheetsDisjoint | Sources/HelbreathRaylib/player.h:236-238 | the sheets of two different items do not overlap |
| PlayerModel.GameModelIndexAddsOffset | Sources/HelbreathRaylib/player.h:224-231 | the body index is the gender's base plus the offset |
| PlayerModel.UnderwearIndexAddsOffset | Sources/HelbreathRaylib/player.h:180-187 | the underwear index is the gender's base plus the offset |
| PlayerModel.ItemIndexAddsOffset | Sources/HelbreathRaylib/player.h:233-241 | the item index is the item's sheet base plus the offset |
| TableModelMod.ReplayAppend | Sources/TableModel.h:58-63 | replaying a log with one more operation applies that operation to the replay of the rest |
| TableModelMod.StagedLogReplays | Sources/TableModel.h:58-73 | in a consistent table the cache is the base rows with every pending operation replayed |
| TableModelMod.TableModel.constructor | Sources/TableModel.h:20-21 | the table starts empty with no pending operations |
| TableModelMod.TableModel.Find | Sources/TableModel.h:33-35 | the search returns the first cached row with the id |
| TableModelMod.TableModel.Log | Sources/TableModel.h:29 | the operation is appended to the local log and nothing else changes |
| TableModelMod.TableModel.InsertRow | Sources/TableModel.h:27-30 | the row is appended to the cache and an insert logged |
| TableModelMod.TableModel.UpdateRow | Sources/TableModel.h:32-39 | an unknown id changes nothing; otherwise the first matching row is replaced and an update logged |
| TableModelMod.TableModel.RemoveRow | Sources/TableModel.h:41-48 | an unknown id changes nothing; otherwise the first matching row is removed and a delete logged |
| TableModelMod.TableModel.LoadFromStorage | Sources/TableModel.h:50-56 | the cache and the original rows become the loaded rows, with no pending operations |
| TableModelMod.TableModel.Stage | Sources/TableModel.h:58-63 | the local log moves to the end of the staged operations |
| TableModelMod.TableModel.Rollback | Sources/TableModel.h:65-68 | every pending operation is dropped and the cache kept |
| TableModelMod.TableModel.PendingCount | Sources/TableModel.h:75-77 | the count is the length of the pending copy |
| LayerStackModel.Layer.constructor | HelbreathRaylib/core/Layer.h:12-13 | a new layer has its name and is not initialised |
| LayerStackModel.Layer.Initialize | HelbreathRaylib/core/Layer.h:19-24 | the layer is initialised afterwards |
| LayerStackModel.Layer.Uninitialize | HelbreathRaylib/core/Layer.h:28-33 | the layer is not initialised afterwards |
| LayerStackModel.IndexIn | HelbreathRaylib/core/Layer.cpp:20-21 | the position of the layer within the searched range, or none exactly when it is not there |
| LayerStackModel.Propagate | HelbreathRaylib/core/Layer.cpp:72-83 | events visit only initialised layers, stop at the first consumer, and are handled exactly when some initialised layer consumes them |
| LayerStackModel.InitializedDown | HelbreathRaylib/core/Layer.cpp:72-83 | the initialised layers of a range, topmost first: every one of them and nothing else |
| LayerStackModel.StopIndex | HelbreathRaylib/core/Layer.cpp:72-83 | the topmost initialised consumer, with no consumer above it, or 0 when there is none |
| LayerStackModel.PropagateVisitsAll | HelbreathRaylib/core/Layer.cpp:72-83 | an unhandled event reaches exactly the initialised layers from the top down to the topmost consumer, in that order, skipping none |
| LayerStackModel.LayerStack.constructor | HelbreathRaylib/core/Layer.h:62 | the stack starts empty with the overlay boundary at 0 |
| LayerStackModel.LayerStack.PushLayer | HelbreathRaylib/core/Layer.cpp:10-13 | the layer goes at the top of the layers and below every overlay |
| LayerStackModel.LayerStack.PushOverlay | HelbreathRaylib/core/Layer.cpp:15-17 | the overlay goes on top of everything |
| LayerStackModel.LayerStack.PopLayer | HelbreathRaylib/core/Layer.cpp:19-28 | a layer found among the layers is uninitialised and removed; otherwise nothing changes |
| LayerStackModel.LayerStack.PopOverlay | HelbreathRaylib/core/Layer.cpp:30-38 | an overlay found among the overlays is uninitialised and removed; otherwise nothing changes |
| LayerStackModel.LayerStack.FindLayer | HelbreathRaylib/core/Layer.cpp:20-23 | the search returns the layer's position within the range |
| LayerStackModel.LayerStack.InitializeAll | HelbreathRaylib/core/Layer.cpp:40-46 | every layer is initialised and the stack is unchanged |
| LayerStackModel.LayerStack.UninitializeAll | HelbreathRaylib/core/Layer.cpp:48-54 | no layer is initialised and the stack is unchanged |
| LayerStackModel.LayerStack.PropagateEvent | HelbreathRaylib/core/Layer.cpp:72-83 | the loop visits and handles exactly as the propagation function specifies |
| LayerStackModel.LayerStack.GetLayer | HelbreathRaylib/core/Layer.cpp:85-92 | the first layer with the name, or null |
| LayerStackModel.DistinctRemove | HelbreathRaylib/core/Layer.cpp:25 | erasing one layer keeps the layers distinct |
| Wrappers.FirstWhereIs | HelbreathRaylib/core/Layer.cpp:85-92 | an element satisfying the predicate with none before it is the one found, as `GetLayer`'s loop relies on |
| LayerStackModel.PropagateStartsAtTop | HelbreathRaylib/core/Layer.cpp:72-83 | a handled event visits nothing; otherwise the first visited layer is the topmost initialised one |
| TimerServiceModel.NewTimer | Sources/HelbreathRaylib/Platform/Web/WebTimerService.cpp:9 | a new timer is active, with nothing accumulated |
| TimerServiceModel.Step | Sources/HelbreathRaylib/Platform/Web/WebTimerService.cpp:34-50 | an inactive timer is frozen; an active one accumulates the time, and when it fires a repeating timer keeps the remainder while a one-shot one stops |
| TimerServiceModel.RepeatingStaysBehindOneInterval | Sources/HelbreathRaylib/Platform/Web/WebTimerService.cpp:34-50 | a repeating timer stays active with less than one interval accumulated |
| TimerServiceModel.InactiveIsFrozen | Sources/HelbreathRaylib/Platform/Web/WebTimerService.cpp:34-50 | an inactive timer neither changes nor fires |
| TimerServiceModel.HasLeast | Sources/HelbreathRaylib/Platform/Web/WebTimerService.cpp:33-51 | every non-empty set of ids has a least one, the next the map iteration visits |
| TimerServiceModel.AdvanceStep | Sources/HelbreathRaylib/Platform/Web/WebTimerService.cpp:33-51 | advancing the least remaining timer keeps the loop invariant over the rest |
| TimerServiceModel.WebTimerService.constructor | Sources/HelbreathRaylib/Platform/Web/WebTimerService.cpp:3-5 | no timers, nothing queued, next id 1 |
| TimerServiceModel.WebTimerService.Schedule | Sources/HelbreathRaylib/Platform/Web/WebTimerService.cpp:7-16 | the next id is used and incremented modulo 2^32; a new timer is stored unless the id is taken |
| TimerServiceModel.WebTimerService.ScheduleRepeating | Sources/HelbreathRaylib/Platform/Web/WebTimerService.cpp:7-11 | a fresh positive id maps to a new repeating timer |
| TimerServiceModel.WebTimerService.ScheduleOnce | Sources/HelbreathRaylib/Platform/Web/WebTimerService.cpp:13-16 | a fresh id maps to a new one-shot timer |
| TimerServiceModel.WebTimerService.Cancel | Sources/HelbreathRaylib/Platform/Web/WebTimerService.cpp:18-24 | an unknown id changes nothing; a known timer is deactivated and queued for removal |
| TimerServiceModel.WebTimerService.CancelAll | Sources/HelbreathRaylib/Platform/Web/WebTimerService.cpp:26-29 | all timers and the removal queue are cleared |
| TimerServiceModel.WebTimerService.Update | Sources/HelbreathRaylib/Platform/Web/WebTimerService.cpp:31-58 | fires exactly the timers due, in id order; steps the survivors; removes expired one-shots and cancelled timers |
| TimerServiceModel.WebTimerService.AdvanceAll | Sources/HelbreathRaylib/Platform/Web/WebTimerService.cpp:33-51 | every timer is stepped, the due ones are reported in id order and the expired ones queued |
| TimerServiceModel.WebTimerService.AdvanceOne | Sources/HelbreathRaylib/Platform/Web/WebTimerService.cpp:34-50 | one timer is stepped, reported if due and queued if expired |
| TimerServiceModel.WebTimerService.RemoveQueued | Sources/HelbreathRaylib/Platform/Web/WebTimerService.cpp:54-57 | every queued id leaves the map and the queue is emptied |

## Left out

- PAK: the stream-based and fast loaders (`loadpak_fast`, `get_sprite*`, the `*_encrypted` readers) and `encrypt_file`/`decrypt_file`. These are file I/O around the same formulas. `ImageSizeFormulasAgree` relates the fast size formula, and `DecryptSection` the section-wise decryption, to the modelled reader and cipher. The image bytes are kept as a slice, not decoded. `FastImageSize` assumes a 64-bit `long`; where `long` is 32 bits (Windows, wasm32) `newLength` (PAK.h:142) is negative for a wrapped size instead, which also ends in an exception, so the outcome is the same.
- XSocket: sockets, the receive thread, `RecvAll`, and the connect/disconnect/message callbacks. These are operating-system I/O and concurrency. `Send` takes the running flag as a parameter; `Receive` takes the delivered bytes.
- CMap: `ForEachTileRegion` (rendering iteration) and the `CMapLoader` wrapper that opens files from disk.
- InputBox: rendering, the caret blink timer, pixel measurement and horizontal scrolling, mouse selection, the `OnTextChanged`/`OnFocused`/`OnBlurred` callbacks, `SetConfig`, placeholder and password display. The clipboard is a parameter. `Copy` (Ctrl+C) changes no state. `ClearAllowedCharacters` is `SetAllowedCharacters` with an empty string.
- ScissorStack: the render-batch flush and the zoom scaling of rectangles in `ApplyCurrentScissor` (graphics API calls). Only whether scissoring is enabled is modelled.
- ScissorStack: `int` overflow of `x + width`/`y + height` in `Intersect` is not modelled (unbounded integers), so `IntersectContains` and `PushAllClipsToAll` also hold where the source's sums would overflow. The `raylib::Rectangle` overload of `Push` with its float-to-`int` casts is left out.
- Animation: `double` timestamps are exact reals. The `Animation(start, …)` constructor ignores `start` because its `reset()` call overwrites the frame; the model does the same.
- TimerServiceModel.WebTimerService.ScheduleRepeating: requires the next id to be below 2^32 − 1, so the contract does not cover id wrap-around. `Schedule` itself models the wrap.
- TimerServiceModel.WebTimerService.ScheduleOnce: the same id bound as `ScheduleRepeating`.
- Timers: callbacks are opaque; `Update` reports the fired ids in the order they fire. `float` time is an exact real.
- EntityManagerModel.EntityManager.Add: adding a GUID that is already registered is modelled as the source does it (appended, map entry overwritten), but the consistency guarantee covers only a fresh GUID.
- EntityManager: the typed `Get<T>` with `dynamic_cast`, `ForEach`, and the owning `unique_ptr` semantics. Entities are reduced to their GUIDs.
- Player: the `SPR_*`/`MDLID_*` index constants are not part of this model, so they are parameters. Item metadata is a sequence of entries rather than a JSON file; the `Equipment` aggregate struct is left out.
- GeometryTypes: integer overflow of the coordinate type is not modelled (unbounded integers); the desktop and browser variants share one model.
- ColorTypes: the signed-shift behaviour of `a << 24` on an `int` operand is not modelled; the channels are treated as unsigned bytes.
- Entities: `TILE_SIZE` is fixed at 32. `_build_path` (entity.cpp:173-285) is left out: the integer retry search that calls `_build_path_direct` on the direct target, then on the 8 neighbours, then on 8 alternative targets. The model covers `_build_path_direct` itself.
- Entities: the `float` pixel interpolation of `_update_movement`, drawing, and the network-driven command queue are left out.
- Entities: the source uses reservation key 0 for "none", but 0 is also the key of tile (0,0), so `stop_movement` never releases a reservation of that tile. `EntityMovement.Mover.StopMovement` reproduces this.
- Layers: `Update`, `Render` and `UpdateAll`/`RenderAll` (per-frame virtual calls with no state effect in the stack). `OnEvent` is modelled by the set of layers that consume the event. `PopLayer`/`PopOverlay` erase the owning `unique_ptr`, which destroys the layer; the model keeps the object, uninitialised and out of the stack.
- TableModel: the database session that executes the staged operations is outside the model; `Stage` records what would be sent.

## Findings

| source | as written | input that shows it | evidently intended | confidence | as-written member | corrected member |
|---|---|---|---|---|---|---|
| Sources/HelbreathRaylib/CMap.h:160-193 | `LoadMTDFile` checks only that the file has at least 15 bytes, then reads the identifier and name lengths, both strings, the width, the height and the tile size without further bounds checks | the 15 bytes "<MTD>" followed by ten zero bytes: the height and tile size are read from bytes 15-18, beyond the end | every field read is bounds-checked, and a truncated header is rejected | not executed | MtdMap.ShortFileReadsPastEnd | MtdMap.CheckLayoutCorrectsAsWritten |

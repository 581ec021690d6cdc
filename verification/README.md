# shadplay drag-and-drop textures, modelled in Dafny

This project models the `drag_n_drop` module of shadplay. That module lets a user drop
image files onto the window, registers each one as a numbered texture, and switches
the texture shown by the 2D shader material with the number keys. It has three
systems, and each one processes one frame's batch of events:

- **Drop-event translator** (`file_drag_and_drop_listener`, module `DropListener`).
  Each `DroppedFile` notification becomes one `UserAddedTexture` event carrying the
  path unchanged. Hover and cancel notifications are dropped.
- **Texture ingestion** (`add_dropped_file` and the `TexHandleQueue` registry, module
  `TextureIngest`). Every event runs the advisory extension check against
  `AVAILABLE_TEX_FORMATS = ["png", "jpeg", "jpg"]`. The check only chooses a log line.
  The path is then loaded through the asset server. The handle is inserted under the
  key equal to the registry's current key count.
- **Texture swap controller** (`swap_tex_to_idx_2d`, module `TextureSwap`). It acts only
  when the material query yields exactly one handle and that handle resolves to a
  material. Each pressed digit key `0`..`9` then writes that digit into the material's
  current-texture index. The first released event, event without a key code, or
  non-digit key returns from the system and abandons the rest of the batch.

Supporting modules: `Wrappers` (`Option` and `Result`) and `PathText` (the path's
extension and the substring test).

Choices made in the model:
- The registry is a class whose `map<nat, ImageHandle>` field the ingestion method
  updates in place.
- The 2D material is a class with one integer field, `currentTex`. `set_current_tex` is
  a plain write to that field.
- The material assets are a map from material handle to material object. The query
  result is the sequence of handles it matched.
- The asset server's `load` is a function parameter `Path -> ImageHandle`. The model
  does not assume that the returned handles are fresh or distinct.

Behaviour of the code that the model keeps as written:
- The extension check uses `str::contains`. It is case-sensitive and it is a substring
  test, not a comparison of whole extensions: "photo.PNG" fails the check and
  "photo.xpngx" passes it (`UpperCaseRefused`, `SubstringAccepted`). A hidden name such
  as ".png" has no extension and fails it (`PngAcceptedUnlessHidden`).
- Nothing is filtered by extension. The doc comment at src/lib.rs:30 says the listener
  listens for .png and .jpeg files, but it forwards every dropped file. The ingestion
  check only selects a log message; its failure branch is marked for removal at
  src/lib.rs:58. Every event is loaded and registered (`UnsupportedStillRegistered`).
- The key for a new entry is the registry's key count, not one more than its largest
  key. Starting from keys exactly 0..K-1, the new keys are fresh and consecutive
  (`IngestContiguous`). If the key count equals a key already taken, which needs a gap
  in the keys, the new entry overwrites that entry (`GapOverwrites`).
- The first event that is not a pressed digit key returns from the swap system. Later
  digit presses in the same batch are ignored (`FinalIndexAppend`, `ReleaseHaltsBatch`).

## Model

| member | source | states |
|---|---|---|
| `PathText.Contains` | src/lib.rs:54 | the substring test holds exactly when the needle occurs at some position of the extension; it is case-sensitive, and the empty needle always occurs |
| `PathText.Extension` | src/lib.rs:53 | a present extension contains no '.' |
| `PathText.ExtensionIsDottedSuffix` | src/lib.rs:53 | a present extension holds no '/' and is the text after a '.' that ends the path |
| `PathText.ExtensionNone` | src/lib.rs:53 | a path has no extension exactly when its file name is ".." or has no '.' after its first character |
| `PathText.ExtensionOfDottedSuffix` | src/lib.rs:53 | a path ending in '.' and a non-empty, dot-free, slash-free suffix has that suffix as its extension, except when the '.' opens the file name (nothing before it, or a '/' right before it), and then it has none |
| `PathText.ExtensionOfName` | src/lib.rs:53 | a file name made of a non-empty stem, a '.' and a dot-free suffix has that suffix as its extension |
| `PathText.ExtensionUnderDirectory` | src/lib.rs:53 | the directory part of a path does not affect its extension: only a final component other than "" and "." counts |
| `DropListener.Translate` | src/lib.rs:31-42 | emits exactly as many events as there are `DroppedFile` notifications |
| `DropListener.TranslateFromDrops` | src/lib.rs:35-39 | every emitted event carries the path of some `DroppedFile` notification of the batch |
| `DropListener.TranslateAt` | src/lib.rs:35-41 | the `DroppedFile` at position i yields the event at position "number of drops before i", with its path unchanged: one event per drop, in arrival order |
| `DropListener.TranslateAppend` | src/lib.rs:35-41 | translating two batches one after the other emits what translating their concatenation emits |
| `DropListener.HoversEmitNothing` | src/lib.rs:40 | a batch of only hover and cancel notifications emits no event |
| `TextureIngest.TexHandleQueue.constructor` | src/lib.rs:17-18 | the derived default registry is empty |
| `TextureIngest.AnyFormatMatches` | src/lib.rs:51-55 | the `any` over the format list holds exactly when the extension is present and contains one of the listed formats |
| `TextureIngest.HasSupportedExtension` | src/lib.rs:51-55 | the check passes exactly when the path has an extension that contains "png", "jpeg" or "jpg" as a substring |
| `TextureIngest.InsertNext` | src/lib.rs:63-65 | one insertion puts the handle under key = number of keys before it; every other existing entry is unchanged |
| `TextureIngest.GapOverwrites` | src/lib.rs:63-65 | when the key equal to the count is already taken (a registry with a gap), that entry is replaced and the registry does not grow |
| `TextureIngest.Ingest` | src/lib.rs:50-67 | ingesting a batch never removes a key |
| `TextureIngest.InsertNextContiguous` | src/lib.rs:63-65 | inserting into a registry with keys 0..K-1 gives keys 0..K and grows it by one |
| `TextureIngest.IngestKeys` | src/lib.rs:50-67 | from keys exactly 0..K-1, ingesting N events gives keys exactly 0..K+N-1 |
| `TextureIngest.IngestValues` | src/lib.rs:61-65 | from keys exactly 0..K-1, event i's handle is present at key K+i |
| `TextureIngest.IngestKeepsOld` | src/lib.rs:63-65 | from keys exactly 0..K-1, ingesting leaves every existing entry unchanged |
| `TextureIngest.IngestContiguous` | src/lib.rs:50-67 | from keys exactly 0..K-1, ingesting N events gives keys exactly 0..K+N-1, puts event i's handle at K+i, and leaves the old entries unchanged |
| `TextureIngest.AddDroppedFile` | src/lib.rs:45-68 | the registry afterwards is the ingestion of every event in order; a contiguous registry stays contiguous and grows by the batch size |
| `TextureIngest.IngestOne` | src/lib.rs:61-65 | a single event is loaded and registered under the next index whatever its path |
| `TextureIngest.BmpRefused` | src/lib.rs:51-55 | every path ending in ".bmp" fails the extension check, whatever precedes it (hidden names such as ".bmp" have no extension at all) |
| `TextureIngest.UnsupportedStillRegistered` | src/lib.rs:51-65 | every path ending in ".bmp" fails the extension check and is still loaded and registered under the next index |
| `TextureIngest.UpperCaseRefused` | src/lib.rs:51-55 | the check is case-sensitive: every path ending in ".PNG" fails it |
| `TextureIngest.SubstringAccepted` | src/lib.rs:51-55 | the check is a substring test: a path ending in ".xpngx" passes it exactly when the '.' does not open the file name, i.e. something other than '/' precedes it |
| `TextureIngest.DirectoryIgnored` | src/lib.rs:52-54 | the verdict for "dir/name" is the verdict for "name", for a final component other than "" and "." |
| `TextureIngest.PngAcceptedUnlessHidden` | src/lib.rs:51-55 | a path ending in ".png" passes the check exactly when the '.' does not open the file name; a hidden file such as ".png" or "d/.png" has no extension and fails it |
| `TextureIngest.SamePathTwice` | src/lib.rs:61-65 | from keys exactly 0..K-1, dropping the same path twice creates two entries, under keys K and K+1, both holding that path's handle |
| `TextureIngest.HoversLeaveRegistryUnchanged` | src/lib.rs:31-67 | hover and cancel notifications, passed through the translator and ingestion, leave the registry unchanged |
| `TextureSwap.YourShader2D.SetCurrentTex` | src/lib.rs:88-97 | `set_current_tex` writes the given index into the material |
| `TextureSwap.DigitOf` | src/lib.rs:86-99 | exactly the ten digit keys have a digit, and that digit is at most 9 |
| `TextureSwap.DigitOfKeyForDigit` | src/lib.rs:88-97 | the key of each digit 0..9 stands for that digit |
| `TextureSwap.KeyForDigitOf` | src/lib.rs:88-97 | every digit key is the key of its own digit: `Key1`..`Key9` are 1..9 and `Key0` is 0 |
| `TextureSwap.DigitPress` | src/lib.rs:84-104 | an event sets an index exactly when it is pressed, has a key code, and that key is a digit key; the index is the key's digit |
| `TextureSwap.FirstAbort` | src/lib.rs:82-105 | gives the position of the first event that ends the batch (the batch length if none does); every event before it is a digit press |
| `TextureSwap.FinalIndexIsLastDigitBeforeAbort` | src/lib.rs:82-105 | the event-by-event result equals the digit of the last event before the first aborting one, or the old index if there is no such event |
| `TextureSwap.FinalIndexAppend` | src/lib.rs:98-103 | once an aborting event has occurred, anything later in the batch has no effect; an all-digit prefix hands its result on to what follows |
| `TextureSwap.ReleaseHaltsBatch` | src/lib.rs:82-105 | in the declarative reading that the swap method's contract uses, press '3', release '3', press '7' leaves index 3 |
| `TextureSwap.GetSingle` | src/lib.rs:78-80 | the singleton query succeeds exactly when there is one handle; no handle and several handles are distinct errors |
| `TextureSwap.Resolve` | src/lib.rs:78-81 | a material is found exactly when the query has one handle and that handle is in the material assets |
| `TextureSwap.SwapTexToIdx2d` | src/lib.rs:71-107 | the resolved material's index ends as the last digit pressed before the first aborting event, or unchanged if there is none; no other material changes; with zero or several handles, or an unresolved one, nothing changes; the registry is not consulted |

## Left out

- The `screenshot`, `shader_utils`, `ui` and `utils` modules (src/lib.rs:1-4) are not part of this model. `set_current_tex` lives in `shader_utils` and is modelled as a plain field write.
- The 3D material path (src/lib.rs:7-8, 76) is stubbed out in the source and is not modelled.
- All `debug!` logging is left out. As a result the extension check's verdict has no observable effect in the model, just as it has none outside the log in the source.
- Bevy's event buffering across frames is not modelled. Each system receives its batch as a sequence. The model therefore does not say whether events left unread after an early return reach a later frame.
- `Res`/`ResMut` resource access and the internals of `Query::get_single` are left out. The query is the sequence of matched handles.
- `AssetServer::load` is an opaque function parameter. Asynchronous decoding and the pending, ready and failed handle states are not modelled.
- `PathText.Extension`: this is a simplified `Path::extension`. The file name is the text after the last '/'. Trailing separators, "." components, platform separators and the lossy OS-string conversion are not modelled.
- Registry keys are unbounded naturals. `usize` overflow of the key count cannot occur for a map that fits in memory, so it is not modelled.

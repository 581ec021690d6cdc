/**
 * Texture ingestion (`add_dropped_file`) into the handle registry
 * (`TexHandleQueue`).  Each dropped path is checked against the supported
 * formats (advisory only), loaded through the asset server, and its handle
 * is inserted under the key equal to the registry's current key count.
 */
module TextureIngest {
  import opened Wrappers
  import opened PathText
  import opened DropListener

  /** An opaque handle to an image asset, as the asset server hands it out. */
  datatype ImageHandle = ImageHandle(id: nat)

  /** Extensions the drag-and-drop path is meant to support. */
  const AVAILABLE_TEX_FORMATS: seq<string> := ["png", "jpeg", "jpg"]

  /** Registry of user textures: index (0 is the default texture) to handle. */
  class TexHandleQueue {
    var entries: map<nat, ImageHandle>

    /** The derived `Default`: an empty registry. */
    constructor ()
      ensures entries == map[]
    {
      entries := map[];
    }
  }

  /** The keys are exactly `0 .. |m|-1`. */
  ghost predicate Contiguous(m: map<nat, ImageHandle>)
  {
    forall k: nat :: k in m <==> k < |m|
  }

  /** `formats.iter().any(|fmt| ext.is_some_and(|x| x.contains(fmt)))`. */
  function AnyFormatMatches(formats: seq<string>, ext: Option<string>): (r: bool)
    ensures r <==> ext.Some? && exists fmt :: fmt in formats && Contains(ext.value, fmt)
  {
    if formats == [] then false
    else if ext.Some? && Contains(ext.value, formats[0]) then
      assert formats[0] in formats;
      true
    else
      var rest := AnyFormatMatches(formats[1..], ext);
      assert forall fmt :: fmt in formats ==> fmt == formats[0] || fmt in formats[1..];
      assert forall fmt :: fmt in formats[1..] ==> fmt in formats;
      rest
  }

  /**
   * The advisory extension check: the path has an extension containing one
   * of the supported formats as a (case-sensitive) substring.
   */
  function HasSupportedExtension(p: Path): (r: bool)
    ensures r <==> Extension(p).Some? &&
                   exists fmt :: fmt in AVAILABLE_TEX_FORMATS && Contains(Extension(p).value, fmt)
  {
    AnyFormatMatches(AVAILABLE_TEX_FORMATS, Extension(p))
  }

  /** One insertion: the handle goes under the key equal to the current key count. */
  function InsertNext(m: map<nat, ImageHandle>, h: ImageHandle): (r: map<nat, ImageHandle>)
    ensures forall k :: k in r <==> k in m || k == |m|
    ensures r[|m|] == h
    ensures forall k :: k in m && k != |m| ==> r[k] == m[k]
  {
    m[|m| := h]
  }

  /**
   * Keys taken from the count collide once the registry has a gap: if key
   * |m| is already taken, its entry is replaced and the registry does not grow.
   */
  lemma GapOverwrites(m: map<nat, ImageHandle>, h: ImageHandle)
    requires |m| in m
    ensures |InsertNext(m, h)| == |m| && InsertNext(m, h)[|m|] == h
  {
    assert InsertNext(m, h).Keys == m.Keys;
  }

  /** The registry after ingesting a batch of events, one insertion per event, in order. */
  function Ingest(m: map<nat, ImageHandle>, textures: seq<UserAddedTexture>, load: Path -> ImageHandle): (r: map<nat, ImageHandle>)
    ensures forall k :: k in m ==> k in r
    decreases |textures|
  {
    if textures == [] then m
    else
      var prev := Ingest(m, textures[..|textures| - 1], load);
      InsertNext(prev, load(textures[|textures| - 1].path))
  }

  /** One insertion into a contiguous registry appends index |m| and keeps it contiguous. */
  lemma InsertNextContiguous(m: map<nat, ImageHandle>, h: ImageHandle)
    requires Contiguous(m)
    ensures Contiguous(InsertNext(m, h)) && |InsertNext(m, h)| == |m| + 1
  {
  }

  /** Registry with keys exactly 0..K-1, N events: afterwards the keys are exactly 0..K+N-1. */
  lemma {:induction false} IngestKeys(m: map<nat, ImageHandle>, textures: seq<UserAddedTexture>, load: Path -> ImageHandle)
    requires Contiguous(m)
    ensures Contiguous(Ingest(m, textures, load))
    ensures |Ingest(m, textures, load)| == |m| + |textures|
    decreases |textures|
  {
    if textures != [] {
      var n := |textures| - 1;
      IngestKeys(m, textures[..n], load);
      InsertNextContiguous(Ingest(m, textures[..n], load), load(textures[n].path));
    }
  }

  /** Registry with keys exactly 0..K-1: the i-th event's handle sits at K+i. */
  lemma {:induction false} IngestValues(m: map<nat, ImageHandle>, textures: seq<UserAddedTexture>, load: Path -> ImageHandle)
    requires Contiguous(m)
    ensures forall i :: 0 <= i < |textures| ==>
              |m| + i in Ingest(m, textures, load) && Ingest(m, textures, load)[|m| + i] == load(textures[i].path)
    decreases |textures|
  {
    if textures != [] {
      var n := |textures| - 1;
      var prefix := textures[..n];
      IngestValues(m, prefix, load);
      IngestKeys(m, prefix, load);
      var prev := Ingest(m, prefix, load);
      var r := Ingest(m, textures, load);
      assert r == InsertNext(prev, load(textures[n].path));
      forall i | 0 <= i < |textures|
        ensures |m| + i in r && r[|m| + i] == load(textures[i].path)
      {
        if i < n {
          assert |m| + i in prev && |m| + i != |prev|;
          assert prefix[i] == textures[i];
        }
      }
    }
  }

  /** Registry with keys exactly 0..K-1: ingesting leaves its entries untouched. */
  lemma {:induction false} IngestKeepsOld(m: map<nat, ImageHandle>, textures: seq<UserAddedTexture>, load: Path -> ImageHandle)
    requires Contiguous(m)
    ensures forall k :: k in m ==> Ingest(m, textures, load)[k] == m[k]
    decreases |textures|
  {
    if textures != [] {
      var n := |textures| - 1;
      var prefix := textures[..n];
      IngestKeepsOld(m, prefix, load);
      IngestKeys(m, prefix, load);
      var prev := Ingest(m, prefix, load);
      assert Ingest(m, textures, load) == InsertNext(prev, load(textures[n].path));
      forall k | k in m
        ensures Ingest(m, textures, load)[k] == m[k]
      {
        assert k < |m| <= |prev|;
      }
    }
  }

  /**
   * Registry with keys exactly 0..K-1, N events: afterwards the keys are
   * exactly 0..K+N-1, the i-th event's handle sits at K+i, and the old
   * entries are untouched.
   */
  lemma IngestContiguous(m: map<nat, ImageHandle>, textures: seq<UserAddedTexture>, load: Path -> ImageHandle)
    requires Contiguous(m)
    ensures Contiguous(Ingest(m, textures, load))
    ensures |Ingest(m, textures, load)| == |m| + |textures|
    ensures forall i :: 0 <= i < |textures| ==> Ingest(m, textures, load)[|m| + i] == load(textures[i].path)
    ensures forall k :: k in m ==> Ingest(m, textures, load)[k] == m[k]
  {
    IngestKeys(m, textures, load);
    IngestValues(m, textures, load);
    IngestKeepsOld(m, textures, load);
  }

  /** Ingesting one more event is one more `InsertNext`. */
  lemma IngestStep(m: map<nat, ImageHandle>, textures: seq<UserAddedTexture>, i: nat, load: Path -> ImageHandle)
    requires i < |textures|
    ensures Ingest(m, textures[..i + 1], load) == Ingest(m, textures[..i], load)[|Ingest(m, textures[..i], load)| := load(textures[i].path)]
  {
    assert textures[..i + 1][..i] == textures[..i];
  }

  /**
   * `add_dropped_file`: ingest every pending event.  The extension check is
   * evaluated but only chooses a log message; every event is loaded and
   * registered.
   */
  method AddDroppedFile(load: Path -> ImageHandle, userTextures: seq<UserAddedTexture>, handleQueue: TexHandleQueue)
    modifies handleQueue
    ensures handleQueue.entries == Ingest(old(handleQueue.entries), userTextures, load)
    ensures old(Contiguous(handleQueue.entries)) ==>
              && Contiguous(handleQueue.entries)
              && |handleQueue.entries| == old(|handleQueue.entries|) + |userTextures|
              && forall i :: 0 <= i < |userTextures| ==>
                   handleQueue.entries[old(|handleQueue.entries|) + i] == load(userTextures[i].path)
  {
    ghost var start := handleQueue.entries;
    var i := 0;
    while i < |userTextures|
      invariant i <= |userTextures|
      invariant handleQueue.entries == Ingest(start, userTextures[..i], load)
    {
      var texPath := userTextures[i].path;
      // Only selects between two debug messages.
      var supported := HasSupportedExtension(texPath);
      var texture := load(texPath);
      var newIdx := |handleQueue.entries|;
      IngestStep(start, userTextures, i, load);
      handleQueue.entries := handleQueue.entries[newIdx := texture];
      i := i + 1;
    }
    assert userTextures[..i] == userTextures;
    if Contiguous(start) {
      IngestContiguous(start, userTextures, load);
    }
  }

  /** A three-letter extension that differs from "png" and "jpg" in its first letter matches no format. */
  lemma NoFormatIn(ext: string)
    requires |ext| == 3 && ext[0] != 'p' && ext[0] != 'j'
    ensures !AnyFormatMatches(AVAILABLE_TEX_FORMATS, Some(ext))
  {
    forall fmt, i: nat | fmt in AVAILABLE_TEX_FORMATS
      ensures !OccursAt(ext, fmt, i)
    {
      if i == 0 && |fmt| <= 3 {
        assert ext[0..|fmt|][0] == ext[0];
      }
    }
  }

  /** An extension in which "png" occurs matches a supported format. */
  lemma PngFormatIn(ext: string, i: nat)
    requires OccursAt(ext, "png", i)
    ensures AnyFormatMatches(AVAILABLE_TEX_FORMATS, Some(ext))
  {
    assert AVAILABLE_TEX_FORMATS[0] == "png";
  }

  /** Every path ending in ".bmp" fails the check (its extension is "bmp" or, for a hidden name, absent). */
  lemma BmpRefused(front: Path)
    ensures !HasSupportedExtension(front + ".bmp")
  {
    assert front + ".bmp" == front + "." + "bmp";
    ExtensionOfDottedSuffix(front, "bmp");
    NoFormatIn("bmp");
  }

  /** A single event is registered under the next index, whatever its path. */
  lemma IngestOne(m: map<nat, ImageHandle>, p: Path, load: Path -> ImageHandle)
    ensures Ingest(m, [UserAddedTexture(p)], load) == m[|m| := load(p)]
  {
  }

  /** A path whose extension is not supported is still loaded and registered under the next index. */
  lemma UnsupportedStillRegistered(m: map<nat, ImageHandle>, front: Path, load: Path -> ImageHandle)
    ensures !HasSupportedExtension(front + ".bmp")
    ensures Ingest(m, [UserAddedTexture(front + ".bmp")], load) == m[|m| := load(front + ".bmp")]
  {
    BmpRefused(front);
    IngestOne(m, front + ".bmp", load);
  }

  /** The check is case-sensitive: every path ending in ".PNG" is refused. */
  lemma UpperCaseRefused(front: Path)
    ensures !HasSupportedExtension(front + ".PNG")
  {
    assert front + ".PNG" == front + "." + "PNG";
    ExtensionOfDottedSuffix(front, "PNG");
    NoFormatIn("PNG");
  }

  /**
   * The check is a substring test: a path ending in ".xpngx" passes it
   * exactly when the dot does not open the file name.
   */
  lemma SubstringAccepted(front: Path)
    ensures HasSupportedExtension(front + ".xpngx") <==> front != [] && front[|front| - 1] != '/'
  {
    OccursAtByChars("xpngx", "png", 1);
    PngFormatIn("xpngx", 1);
    assert front + ".xpngx" == front + "." + "xpngx";
    ExtensionOfDottedSuffix(front, "xpngx");
  }

  /** The verdict depends only on the final path component (neither "" nor "."). */
  lemma DirectoryIgnored(dir: Path, name: string)
    requires '/' !in name && name != "" && name != "."
    ensures HasSupportedExtension(dir + "/" + name) == HasSupportedExtension(name)
  {
    ExtensionUnderDirectory(dir, name);
  }

  /**
   * A path ending in ".png" passes the check exactly when it is not a hidden
   * file: a file name ".png" (alone, or right after a '/') has no extension.
   */
  lemma PngAcceptedUnlessHidden(front: Path)
    ensures HasSupportedExtension(front + ".png") <==> front != [] && front[|front| - 1] != '/'
  {
    OccursAtByChars("png", "png", 0);
    PngFormatIn("png", 0);
    assert front + ".png" == front + "." + "png";
    ExtensionOfDottedSuffix(front, "png");
  }

  /** Dropping the same path twice yields two registry entries under two distinct indices. */
  lemma SamePathTwice(m: map<nat, ImageHandle>, p: Path, load: Path -> ImageHandle)
    requires Contiguous(m)
    ensures var r := Ingest(m, [UserAddedTexture(p), UserAddedTexture(p)], load);
      |r| == |m| + 2 && |m| in r && |m| + 1 in r && r[|m|] == load(p) && r[|m| + 1] == load(p)
  {
    IngestContiguous(m, [UserAddedTexture(p), UserAddedTexture(p)], load);
  }

  /** Hover and cancel notifications never reach the registry. */
  lemma {:induction false} HoversLeaveRegistryUnchanged(m: map<nat, ImageHandle>, events: seq<FileDragAndDrop>, load: Path -> ImageHandle)
    requires forall j :: 0 <= j < |events| ==> !events[j].DroppedFile?
    ensures Ingest(m, Translate(events), load) == m
  {
    HoversEmitNothing(events);
  }
}

/**
 * The drop-event translator (`file_drag_and_drop_listener`): a batch of
 * window drag-and-drop notifications becomes a batch of
 * `UserAddedTexture` events, one per dropped file, in arrival order.
 */
module DropListener {
  import opened PathText

  /** Identifier of the window a notification comes from. */
  type WindowId = nat

  /** The windowing layer's drag-and-drop notification. */
  datatype FileDragAndDrop =
    | DroppedFile(window: WindowId, pathBuf: Path)
    | HoveredFile(window: WindowId, pathBuf: Path)
    | HoveredFileCanceled(window: WindowId)

  /** Event: a texture file the user dropped onto the window. */
  datatype UserAddedTexture = UserAddedTexture(path: Path)

  /** The events emitted for a batch of notifications. */
  function Translate(events: seq<FileDragAndDrop>): (sent: seq<UserAddedTexture>)
    ensures |sent| == DropCount(events)
  {
    if events == [] then []
    else
      match events[0]
      case DroppedFile(_, path) => [UserAddedTexture(path)] + Translate(events[1..])
      case _ => Translate(events[1..])
  }

  /** The number of `DroppedFile` notifications in a batch. */
  function DropCount(events: seq<FileDragAndDrop>): nat
  {
    if events == [] then 0
    else (if events[0].DroppedFile? then 1 else 0) + DropCount(events[1..])
  }

  /** Every emitted event carries the path of some `DroppedFile` notification of the batch. */
  lemma {:induction false} TranslateFromDrops(events: seq<FileDragAndDrop>, k: nat)
    requires k < |Translate(events)|
    ensures exists j :: 0 <= j < |events| && events[j] == DroppedFile(events[j].window, Translate(events)[k].path)
  {
    var rest := Translate(events[1..]);
    if events[0].DroppedFile? && k == 0 {
      assert events[0] == DroppedFile(events[0].window, Translate(events)[0].path);
    } else {
      var k' := if events[0].DroppedFile? then k - 1 else k;
      assert Translate(events)[k] == rest[k'];
      TranslateFromDrops(events[1..], k');
      var j :| 0 <= j < |events[1..]| && events[1..][j] == DroppedFile(events[1..][j].window, rest[k'].path);
      assert events[j + 1] == events[1..][j];
    }
  }

  /** Translating two batches one after the other emits what translating their concatenation emits. */
  lemma {:induction false} TranslateAppend(a: seq<FileDragAndDrop>, b: seq<FileDragAndDrop>)
    ensures Translate(a + b) == Translate(a) + Translate(b)
  {
    if a != [] {
      assert (a + b)[1..] == a[1..] + b;
      TranslateAppend(a[1..], b);
    } else {
      assert a + b == b;
    }
  }

  /**
   * The `DroppedFile` notification at position `i` yields the event at
   * position `DropCount(events[..i])`, carrying its path unchanged: one
   * event per dropped file, in arrival order.
   */
  lemma {:induction false} TranslateAt(events: seq<FileDragAndDrop>, i: nat)
    requires i < |events| && events[i].DroppedFile?
    ensures DropCount(events[..i]) < |Translate(events)|
    ensures Translate(events)[DropCount(events[..i])] == UserAddedTexture(events[i].pathBuf)
  {
    var rest := Translate(events[1..]);
    if i > 0 {
      TranslateAt(events[1..], i - 1);
      assert events[1..][..i - 1] == events[..i][1..];
      assert DropCount(events[..i]) == (if events[0].DroppedFile? then 1 else 0) + DropCount(events[1..][..i - 1]);
    } else {
      assert events[..0] == [];
    }
  }

  /** A batch of hover and cancel notifications emits nothing. */
  lemma {:induction false} HoversEmitNothing(events: seq<FileDragAndDrop>)
    requires forall j :: 0 <= j < |events| ==> !events[j].DroppedFile?
    ensures Translate(events) == []
  {
    if events != [] {
      HoversEmitNothing(events[1..]);
    }
  }
}

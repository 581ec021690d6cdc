/**
 * The texture swap controller (`swap_tex_to_idx_2d`): when exactly one 2D
 * shader material is in the scene and it resolves to a material asset, the
 * digit keys pressed in this frame's keyboard batch set the material's
 * current texture index.  The first event that is not a pressed digit key
 * ends the processing of the whole batch.
 */
module TextureSwap {
  import opened Wrappers
  import opened TextureIngest

  /** Whether a key went down or came up. */
  datatype ButtonState = Pressed | Released

  /** The keys the controller distinguishes; every other key (numpad digits included) is `Other`. */
  datatype KeyCode =
    | Key1 | Key2 | Key3 | Key4 | Key5 | Key6 | Key7 | Key8 | Key9 | Key0
    | Other(name: string)

  /** A keyboard notification: scan code, optional logical key, state, originating window. */
  datatype KeyboardInput = KeyboardInput(scanCode: nat, keyCode: Option<KeyCode>, state: ButtonState, window: nat)

  /** The asset handle of a 2D shader material. */
  datatype MaterialHandle = MaterialHandle(id: nat)

  /** Why a singleton query did not produce its one result. */
  datatype QuerySingleError = NoEntities | MultipleEntities

  /** The 2D shader material; the controller only touches its current texture index. */
  class YourShader2D {
    var currentTex: int

    constructor (currentTex: int)
      ensures this.currentTex == currentTex
    {
      this.currentTex := currentTex;
    }

    /** `set_current_tex`: a plain write of the index. */
    method SetCurrentTex(idx: int)
      modifies this
      ensures currentTex == idx
    {
      currentTex := idx;
    }
  }

  /** The digit a key stands for, if it is one of the digit keys. */
  function DigitOf(k: KeyCode): (d: Option<nat>)
    ensures d.None? <==> k.Other?
    ensures d.Some? ==> d.value <= 9
  {
    match k
    case Key1 => Some(1)
    case Key2 => Some(2)
    case Key3 => Some(3)
    case Key4 => Some(4)
    case Key5 => Some(5)
    case Key6 => Some(6)
    case Key7 => Some(7)
    case Key8 => Some(8)
    case Key9 => Some(9)
    case Key0 => Some(0)
    case Other(_) => None
  }

  /** The digit key for a digit. */
  function KeyForDigit(d: nat): (k: KeyCode)
    requires d <= 9
    ensures !k.Other?
  {
    match d
    case 0 => Key0
    case 1 => Key1
    case 2 => Key2
    case 3 => Key3
    case 4 => Key4
    case 5 => Key5
    case 6 => Key6
    case 7 => Key7
    case 8 => Key8
    case _ => Key9
  }

  /** The key of digit `d` stands for `d`. */
  lemma DigitOfKeyForDigit(d: nat)
    requires d <= 9
    ensures DigitOf(KeyForDigit(d)) == Some(d)
  {
  }

  /** A digit key is the key of its own digit. */
  lemma KeyForDigitOf(k: KeyCode)
    requires DigitOf(k).Some?
    ensures KeyForDigit(DigitOf(k).value) == k
  {
  }

  /**
   * The index a keyboard event sets, or `None` when it ends the batch
   * (a release, an event without a key code, or a key that is not a digit).
   */
  function DigitPress(ev: KeyboardInput): (d: Option<nat>)
    ensures d.Some? <==> ev.state == Pressed && ev.keyCode.Some? && !ev.keyCode.value.Other?
    ensures d.Some? ==> d.value <= 9 && KeyForDigit(d.value) == ev.keyCode.value
  {
    match ev.state
    case Released => None
    case Pressed =>
      match ev.keyCode
      case None => None
      case Some(k) => DigitOf(k)
  }

  /** Position of the first event that ends the batch, or the batch length if none does. */
  function FirstAbort(evs: seq<KeyboardInput>): (p: nat)
    ensures p <= |evs|
    ensures forall j :: 0 <= j < p ==> DigitPress(evs[j]).Some?
    ensures p < |evs| ==> DigitPress(evs[p]).None?
  {
    if evs == [] || DigitPress(evs[0]).None? then 0
    else 1 + FirstAbort(evs[1..])
  }

  /** The index after a batch, stated declaratively: the digit of the last event before the first aborting one. */
  function LastDigitBeforeAbort(cur: int, evs: seq<KeyboardInput>): int
  {
    var p := FirstAbort(evs);
    if p == 0 then cur else DigitPress(evs[p - 1]).value
  }

  /** The index after a batch, event by event: each digit press overwrites, the first other event stops. */
  function FinalIndex(cur: int, evs: seq<KeyboardInput>): int
    decreases evs
  {
    if evs == [] then cur
    else
      match DigitPress(evs[0])
      case None => cur
      case Some(d) => FinalIndex(d, evs[1..])
  }

  /** The event-by-event reading and the declarative one agree on every batch. */
  lemma {:induction false} FinalIndexIsLastDigitBeforeAbort(cur: int, evs: seq<KeyboardInput>)
    ensures FinalIndex(cur, evs) == LastDigitBeforeAbort(cur, evs)
    decreases evs
  {
    if evs != [] && DigitPress(evs[0]).Some? {
      var d := DigitPress(evs[0]).value;
      FinalIndexIsLastDigitBeforeAbort(d, evs[1..]);
      if FirstAbort(evs[1..]) > 0 {
        assert evs[1..][FirstAbort(evs[1..]) - 1] == evs[FirstAbort(evs) - 1];
      }
    }
  }

  /**
   * Splitting a batch: if the first part is all digit presses, the second
   * part continues from where it left off; otherwise the second part is
   * never looked at.
   */
  lemma {:induction false} FinalIndexAppend(cur: int, a: seq<KeyboardInput>, b: seq<KeyboardInput>)
    ensures FirstAbort(a) == |a| ==> FinalIndex(cur, a + b) == FinalIndex(FinalIndex(cur, a), b)
    ensures FirstAbort(a) < |a| ==> FinalIndex(cur, a + b) == FinalIndex(cur, a)
    decreases a
  {
    if a == [] {
      assert a + b == b;
    } else {
      assert (a + b)[0] == a[0];
      assert (a + b)[1..] == a[1..] + b;
      if DigitPress(a[0]).Some? {
        FinalIndexAppend(DigitPress(a[0]).value, a[1..], b);
      }
    }
  }

  /** Press '3', release '3', press '7': only the '3' takes effect. */
  lemma ReleaseHaltsBatch(cur: int, scan3: nat, scan7: nat, window: nat)
    ensures LastDigitBeforeAbort(cur, [
      KeyboardInput(scan3, Some(Key3), Pressed, window),
      KeyboardInput(scan3, Some(Key3), Released, window),
      KeyboardInput(scan7, Some(Key7), Pressed, window)]) == 3
  {
    var evs := [
      KeyboardInput(scan3, Some(Key3), Pressed, window),
      KeyboardInput(scan3, Some(Key3), Released, window),
      KeyboardInput(scan7, Some(Key7), Pressed, window)];
    assert evs[1..][0] == evs[1];
    assert FirstAbort(evs) == 1;
  }

  /** `Query::get_single`: the one result, or why there is not exactly one. */
  function GetSingle(query: seq<MaterialHandle>): (r: Result<MaterialHandle, QuerySingleError>)
    ensures r.Ok? <==> |query| == 1
    ensures r.Ok? ==> r.value == query[0]
    ensures r == Err(NoEntities) <==> query == []
  {
    if |query| == 0 then Err(NoEntities)
    else if |query| == 1 then Ok(query[0])
    else Err(MultipleEntities)
  }

  /** The material the controller acts on: the single queried handle, resolved in the material assets. */
  function Resolve(query: seq<MaterialHandle>, materials: map<MaterialHandle, YourShader2D>): (r: Option<YourShader2D>)
    ensures r.Some? <==> |query| == 1 && query[0] in materials
    ensures r.Some? ==> r.value == materials[query[0]]
  {
    match GetSingle(query)
    case Err(_) => None
    case Ok(handle) => if handle in materials then Some(materials[handle]) else None
  }

  /** The objects the controller may write: the resolved material, if any. */
  function Target(query: seq<MaterialHandle>, materials: map<MaterialHandle, YourShader2D>): set<YourShader2D>
  {
    match Resolve(query, materials)
    case None => {}
    case Some(mat) => {mat}
  }

  /**
   * `swap_tex_to_idx_2d`.  The texture registry is passed as
   * `swap_tex_to_idx_2d` receives it, but never consulted: the index is
   * not checked against it.
   */
  method SwapTexToIdx2d(keyEvr: seq<KeyboardInput>, shaderHndl: seq<MaterialHandle>,
                        shaderMat: map<MaterialHandle, YourShader2D>, userTextures: TexHandleQueue)
    modifies Target(shaderHndl, shaderMat)
    ensures Resolve(shaderHndl, shaderMat).Some? ==>
              var mat := Resolve(shaderHndl, shaderMat).value;
              mat.currentTex == LastDigitBeforeAbort(old(mat.currentTex), keyEvr)
    ensures forall mat :: mat in shaderMat.Values && Resolve(shaderHndl, shaderMat) != Some(mat) ==>
              mat.currentTex == old(mat.currentTex)
  {
    var single := GetSingle(shaderHndl);
    if single.Err? {
      return;
    }
    var handle := single.value;
    if handle in shaderMat {
      var shadMat := shaderMat[handle];
      for i := 0 to |keyEvr|
        invariant i <= FirstAbort(keyEvr)
        invariant shadMat.currentTex == LastDigitBeforeAbort(old(shadMat.currentTex), keyEvr[..i])
      {
        var ev := keyEvr[i];
        match ev.state {
          case Pressed =>
            match ev.keyCode {
              case Some(v) =>
                match v {
                  case Key1 => shadMat.SetCurrentTex(1);
                  case Key2 => shadMat.SetCurrentTex(2);
                  case Key3 => shadMat.SetCurrentTex(3);
                  case Key4 => shadMat.SetCurrentTex(4);
                  case Key5 => shadMat.SetCurrentTex(5);
                  case Key6 => shadMat.SetCurrentTex(6);
                  case Key7 => shadMat.SetCurrentTex(7);
                  case Key8 => shadMat.SetCurrentTex(8);
                  case Key9 => shadMat.SetCurrentTex(9);
                  case Key0 => shadMat.SetCurrentTex(0);
                  case Other(_) => return;
                }
              case None => return;
            }
          case Released => return;
        }
      }
    }
  }
}

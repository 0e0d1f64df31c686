/** Which touches reach the phone, and where: MitmLayer of radxa/aa-proxy/src/mitm.rs. */
module Mitm {
  import opened Prelude
  import opened Touch
  import Aap

  const MSG_TYPE_TOUCH: u16 := 1

  datatype Rect = Rect(x: u32, y: u32, w: u32, h: u32)

  datatype ScreenSize = ScreenSize(w: u32, h: u32)

  datatype DisplayMode =
    | FullAa
    | SplitAaCam(region: Rect, screen: ScreenSize)
    | SplitCarplayCam(region: Rect, screen: ScreenSize)
    | FullCam

  predicate IsSplit(mode: DisplayMode) { mode.SplitAaCam? || mode.SplitCarplayCam? }

  function AaRegion(mode: DisplayMode): Option<Rect>
  {
    if IsSplit(mode) then Some(mode.region) else None
  }

  predicate AaVisible(mode: DisplayMode) { !mode.FullCam? }

  /** u32 addition of a release build. */
  function WrapAdd(a: u32, b: u32): u32 { (a + b) % TWO32 }

  function RemapTouch(p: Point, mode: DisplayMode): Option<Point>
  {
    match AaRegion(mode)
    case None => Some(p)
    case Some(r) =>
      if p.x < r.x || p.y < r.y || p.x >= WrapAdd(r.x, r.w) || p.y >= WrapAdd(r.y, r.h) then None
      else Some(Point(p.x - r.x, p.y - r.y))
  }

  predicate IsTouch(frame: Aap.Frame) { frame.channel == Aap.INPUT && frame.msgType == MSG_TYPE_TOUCH }

  function ProcessCarToPhone(mode: DisplayMode, frame: Aap.Frame): Option<Aap.Frame>
  {
    if !IsTouch(frame) then Some(frame)
    else if !AaVisible(mode) then None
    else match Parse(frame.payload)
      case None => Some(frame)
      case Some(p) =>
        match RemapTouch(p, mode)
        case None => None
        case Some(q) => if q != p then Some(frame.(payload := Patch(frame.payload, q))) else Some(frame)
  }

  // ----- geometry -----

  /** The points a rectangle covers on an unbounded screen. */
  predicate Inside(p: Point, r: Rect) { r.x <= p.x < r.x + r.w && r.y <= p.y < r.y + r.h }

  function Local(p: Point, r: Rect): Option<Point>
  {
    if Inside(p, r) then Some(Point(p.x - r.x, p.y - r.y)) else None
  }

  /** The rectangle is empty, or neither far edge leaves 32 bits. */
  predicate FitsScreen(r: Rect)
  {
    r.w == 0 || r.h == 0 || (r.x + r.w < TWO32 && r.y + r.h < TWO32)
  }

  /** Remapping is the geometry of the rectangle exactly when its edges do not wrap around. */
  lemma RemapIsGeometry(mode: DisplayMode)
    requires !mode.FullAa? && !mode.FullCam?
    ensures (forall p: Point :: RemapTouch(p, mode) == Local(p, mode.region)) <==> FitsScreen(mode.region)
  {
    var r := mode.region;
    if !FitsScreen(r) {
      var corner := Point(r.x, r.y);
      assert Inside(corner, r) && RemapTouch(corner, mode) == None;
    }
  }

  /**
   * In a split mode a touch frame is forwarded iff its point lies inside the region.  What is forwarded keeps
   * channel, flags and type, and the phone reads the point relative to the region, inside [0, w) x [0, h),
   * exactly when the region starts at the origin or the payload could be taken apart completely; otherwise
   * the fallback sends the payload on with its old point.  A touch whose payload does not parse is forwarded as
   * it came.
   */
  lemma TouchForwarding(mode: DisplayMode, frame: Aap.Frame)
    requires !mode.FullAa? && !mode.FullCam? && FitsScreen(mode.region)
    requires IsTouch(frame) && MinimalFirstPointer(frame.payload)
    requires forall q: Point :: Allocatable(Patch(frame.payload, q))
    ensures Parse(frame.payload).None? ==> ProcessCarToPhone(mode, frame) == Some(frame)
    ensures Parse(frame.payload).Some? ==>
      var r := mode.region;
      var p := Parse(frame.payload).value;
      var sent := ProcessCarToPhone(mode, frame);
      && (sent.Some? <==> Inside(p, r))
      && (sent.Some? ==>
        && sent.value == frame.(payload := sent.value.payload)
        && Parse(sent.value.payload).Some?
        && (Parse(sent.value.payload) == Local(p, r) <==> (r.x == 0 && r.y == 0) || Patchable(frame.payload))
        && Local(p, r).Some? && Local(p, r).value.x < r.w && Local(p, r).value.y < r.h)
  {
    if Parse(frame.payload).None? { return; }
    var p := Parse(frame.payload).value;
    RemapIsGeometry(mode);
    assert RemapTouch(p, mode) == Local(p, mode.region);
    if Inside(p, mode.region) {
      var q := Local(p, mode.region).value;
      assert Allocatable(Patch(frame.payload, q));
      PatchDefined(frame.payload, q);
      if q != p && TryPatch(frame.payload, q).Some? { PatchThenParse(frame.payload, q); }
    }
  }

  /** A touch never reaches the phone while only the camera is shown, and no other frame is ever held back. */
  lemma OnlyTouchesAreDropped(mode: DisplayMode, frame: Aap.Frame)
    ensures IsTouch(frame) <==> frame.channel == 1 && frame.msgType == 1
    ensures mode.FullCam? && IsTouch(frame) ==> ProcessCarToPhone(mode, frame) == None
    ensures ProcessCarToPhone(mode, frame) == None ==> IsTouch(frame) && !mode.FullAa?
    ensures !IsTouch(frame) || mode.FullAa? ==> ProcessCarToPhone(mode, frame) == Some(frame)
  {}
}

// Shared value types of the edelkrone API: axis names, device kinds, motion states,
// the optional wrapper and the opaque floating-point value.

module Base {

  datatype Option<T> = None | Some(value: T)

  /** A Swift `Double`, kept as its IEEE-754 bit pattern. The model never computes with it;
      it is only stored, copied and compared (by representation). */
  datatype Double = Double(bits: bv64)

  const ZeroDouble: Double := Double(0)
  const OneDouble: Double := Double(0x3FF0_0000_0000_0000)

  /** Swift `Int` on the 64-bit platforms the library targets. */
  predicate IsInt64(i: int) {
    -0x8000_0000_0000_0000 <= i < 0x8000_0000_0000_0000
  }

  // ---------------------------------------------------------------------------------------
  // AxelID

  datatype AxelID = HeadPan | HeadTilt | Slide | Focus | JibPlusPan | JibPlusTilt

  /** The integer rank used to order axes: pans first, then tilts, the slide and the focus. */
  function Value(a: AxelID): nat {
    match a
    case HeadPan => 0
    case JibPlusPan => 0
    case HeadTilt => 1
    case JibPlusTilt => 1
    case Slide => 2
    case Focus => 3
  }

  /** `AxelID <`: compares the ranks only. */
  predicate Less(a: AxelID, b: AxelID) {
    Value(a) < Value(b)
  }

  /** The JSON / raw string of an axis (the enum case name). */
  function AxelRaw(a: AxelID): string {
    match a
    case HeadPan => "headPan"
    case HeadTilt => "headTilt"
    case Slide => "slide"
    case Focus => "focus"
    case JibPlusPan => "jibPlusPan"
    case JibPlusTilt => "jibPlusTilt"
  }

  /** `AxelID(rawValue:)`. */
  function AxelFromRaw(s: string): (r: Option<AxelID>)
    ensures r.Some? ==> AxelRaw(r.value) == s
    ensures r.None? ==> forall a :: AxelRaw(a) != s
  {
    if s == "headPan" then Some(HeadPan)
    else if s == "headTilt" then Some(HeadTilt)
    else if s == "slide" then Some(Slide)
    else if s == "focus" then Some(Focus)
    else if s == "jibPlusPan" then Some(JibPlusPan)
    else if s == "jibPlusTilt" then Some(JibPlusTilt)
    else None
  }

  lemma AxelRawRoundTrip(a: AxelID)
    ensures AxelFromRaw(AxelRaw(a)) == Some(a)
  {
  }

  /** The display label of an axis. */
  function AxelLabel(a: AxelID): string {
    match a
    case HeadPan => "Pan"
    case HeadTilt => "Tilt"
    case Slide => "Slide"
    case Focus => "Focus"
    case JibPlusPan => "JibPan"
    case JibPlusTilt => "JibTilt"
  }

  /** Six distinct labels: no two axes share one. */
  lemma AxelLabelInjective(a: AxelID, b: AxelID)
    ensures AxelLabel(a) == AxelLabel(b) ==> a == b
  {
  }

  /** Axis ranks: both pan axes rank 0, both tilt axes 1, slide 2 and focus 3. */
  lemma ValueTable(a: AxelID)
    ensures Value(a) == 0 <==> a == HeadPan || a == JibPlusPan
    ensures Value(a) == 1 <==> a == HeadTilt || a == JibPlusTilt
    ensures Value(a) == 2 <==> a == Slide
    ensures Value(a) == 3 <==> a == Focus
  {
  }

  /** `<` is a strict weak order; it is not total, since the two pan axes are mutually not-less. */
  lemma LessIsStrictWeakOrder(a: AxelID, b: AxelID, c: AxelID)
    ensures !Less(a, a)
    ensures Less(a, b) ==> !Less(b, a)
    ensures Less(a, b) && Less(b, c) ==> Less(a, c)
    ensures !Less(a, b) && !Less(b, a) && !Less(b, c) && !Less(c, b) ==> !Less(a, c) && !Less(c, a)
    ensures HeadPan != JibPlusPan && !Less(HeadPan, JibPlusPan) && !Less(JibPlusPan, HeadPan)
  {
  }

  // ---------------------------------------------------------------------------------------
  // EdelkroneDevice

  datatype EdelkroneDevice =
    | SlideModule | SlideModuleV3 | SliderOnePro | SliderOne | DollyPlus | DollyOne | DollyPlusPro
    | PanPro | HeadOne | HeadPlus | HeadPlusPro | HeadPlusV2 | HeadPlusProV2 | FocusPlusPro | JibOne
    | Unknown

  /** Devices whose axis can run a calibration: every device but the sliders and dollies listed. */
  predicate CanCalibrate(d: EdelkroneDevice) {
    match d
    case SliderOne => false
    case SliderOnePro => false
    case DollyOne => false
    case DollyPlus => false
    case DollyPlusPro => false
    case _ => true
  }

  lemma CanCalibrateExactly(d: EdelkroneDevice)
    ensures !CanCalibrate(d) <==> d in {SliderOne, SliderOnePro, DollyOne, DollyPlus, DollyPlusPro}
  {
  }

  /** Shared by `AxelStatus` and `KeyposeAxel`: an axis needs calibration when it is not calibrated
      and its device can be calibrated. */
  predicate NeedsCalibration(calibrated: bool, device: EdelkroneDevice) {
    !calibrated && CanCalibrate(device)
  }

  function DeviceRaw(d: EdelkroneDevice): string {
    match d
    case SlideModule => "slideModule"
    case SlideModuleV3 => "slideModuleV3"
    case SliderOnePro => "sliderOnePro"
    case SliderOne => "sliderOne"
    case DollyPlus => "dollyPlus"
    case DollyOne => "dollyOne"
    case DollyPlusPro => "dollyPlusPro"
    case PanPro => "panPro"
    case HeadOne => "headOne"
    case HeadPlus => "headPlus"
    case HeadPlusPro => "headPlusPro"
    case HeadPlusV2 => "headPlusV2"
    case HeadPlusProV2 => "headPlusProV2"
    case FocusPlusPro => "focusPlusPro"
    case JibOne => "jibOne"
    case Unknown => "unknown"
  }

  /** `EdelkroneDevice(rawValue:)`, used when a device name is decoded. */
  function DeviceFromRaw(s: string): (r: Option<EdelkroneDevice>)
    ensures r.Some? ==> DeviceRaw(r.value) == s
    ensures r.None? ==> forall d :: DeviceRaw(d) != s
  {
    if s == "slideModule" then Some(SlideModule)
    else if s == "slideModuleV3" then Some(SlideModuleV3)
    else if s == "sliderOnePro" then Some(SliderOnePro)
    else if s == "sliderOne" then Some(SliderOne)
    else if s == "dollyPlus" then Some(DollyPlus)
    else if s == "dollyOne" then Some(DollyOne)
    else if s == "dollyPlusPro" then Some(DollyPlusPro)
    else if s == "panPro" then Some(PanPro)
    else if s == "headOne" then Some(HeadOne)
    else if s == "headPlus" then Some(HeadPlus)
    else if s == "headPlusPro" then Some(HeadPlusPro)
    else if s == "headPlusV2" then Some(HeadPlusV2)
    else if s == "headPlusProV2" then Some(HeadPlusProV2)
    else if s == "focusPlusPro" then Some(FocusPlusPro)
    else if s == "jibOne" then Some(JibOne)
    else if s == "unknown" then Some(Unknown)
    else None
  }

  lemma DeviceRawRoundTrip(d: EdelkroneDevice)
    ensures DeviceFromRaw(DeviceRaw(d)) == Some(d)
  {
  }

  // ---------------------------------------------------------------------------------------
  // MotionState

  datatype MotionState =
    | Idle | KeyposeMove | RealTimeMove | FocusCalibration | SliderCalibration | JoystickMove
    | UnsupportedActivity
}

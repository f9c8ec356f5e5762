/** Detection of CSS animation support and of the vendor prefix that goes with it. */
module Features {

  /** Whether the passive trigger is available, and the prefix its CSS needs. */
  datatype Capability = Capability(supported: bool, prefix: string)

  /** `hasAnimationName`: the unprefixed `animationName` style property is defined;
      `hasWebkitAnimationName`: `WebkitAnimationName` is defined. The unprefixed
      property wins when both are defined. */
  function Detect(hasAnimationName: bool, hasWebkitAnimationName: bool): (c: Capability)
    ensures c.supported <==> hasAnimationName || hasWebkitAnimationName
    ensures c.prefix == "" || c.prefix == "-webkit-"
    ensures c.prefix == "-webkit-" <==> !hasAnimationName && hasWebkitAnimationName
    ensures !c.supported ==> c.prefix == ""
  {
    if hasAnimationName then Capability(true, "")
    else if hasWebkitAnimationName then Capability(true, "-webkit-")
    else Capability(false, "")
  }
}

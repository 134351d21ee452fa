/** Device classification from a parsed user-agent (services/portal/src/utils/deviceDetector.js).
    The user-agent parser itself is not part of this model: its result comes in as a value,
    with the empty string standing for an absent field. */
module DeviceDetector {
  import opened Text

  /** The two fields of a user-agent parse result that getDeviceType reads. */
  datatype UaResult = UaResult(deviceType: string, osName: string)

  /** The record `parse` returns, as far as getCategory and formatDevice read it. */
  datatype DeviceInfo = DeviceInfo(device: string, os: string, osVersion: string,
                                   manufacturer: string, model: string, deviceKind: string)

  /** The OS-name fallback of getDeviceType: a mobile OS name marks a mobile device. */
  predicate MobileOsName(osName: string)
  {
    Contains(ToLower(osName), "android") || Contains(ToLower(osName), "ios")
  }

  /** getDeviceType: a display label for the parser's device type. */
  function GetDeviceType(result: UaResult): (shown: string)
    ensures result.deviceType == "mobile" ==> shown == "Mobile Phone"
    ensures result.deviceType == "tablet" ==> shown == "Tablet"
    ensures result.deviceType == "smarttv" ==> shown == "Smart TV"
    ensures result.deviceType == "wearable" ==> shown == "Wearable"
    ensures result.deviceType == "console" ==> shown == "Game Console"
    ensures result.deviceType !in {"", "mobile", "tablet", "smarttv", "wearable", "console"} ==>
              shown == result.deviceType
    ensures result.deviceType == "" ==>
              shown == (if MobileOsName(result.osName) then "Mobile Device" else "Desktop/Laptop")
  {
    if result.deviceType != "" then
      match result.deviceType
      case "mobile" => "Mobile Phone"
      case "tablet" => "Tablet"
      case "smarttv" => "Smart TV"
      case "wearable" => "Wearable"
      case "console" => "Game Console"
      case _ => result.deviceType
    else
      var os := ToLower(result.osName);
      if Contains(os, "android") || Contains(os, "ios") then "Mobile Device" else "Desktop/Laptop"
  }

  /** getCategory, on the parsed `type` field. */
  function GetCategory(deviceKind: string): (category: string)
    ensures category in {"mobile", "tv", "wearable", "desktop"}
    ensures category == "mobile" <==> deviceKind == "mobile" || deviceKind == "tablet"
    ensures category == "tv" <==> deviceKind == "smarttv"
    ensures category == "wearable" <==> deviceKind == "wearable"
  {
    if deviceKind == "mobile" || deviceKind == "tablet" then "mobile"
    else if deviceKind == "smarttv" then "tv"
    else if deviceKind == "wearable" then "wearable"
    else "desktop"
  }

  /** The analytics category and the display label agree on what they both name. */
  lemma CategoryAgreesWithLabel(deviceKind: string, osName: string)
    requires deviceKind != ""
    ensures GetCategory(deviceKind) == "mobile" ==>
              GetDeviceType(UaResult(deviceKind, osName)) in {"Mobile Phone", "Tablet"}
    ensures GetCategory(deviceKind) == "tv" ==> GetDeviceType(UaResult(deviceKind, osName)) == "Smart TV"
    ensures GetCategory(deviceKind) == "wearable" ==> GetDeviceType(UaResult(deviceKind, osName)) == "Wearable"
    ensures GetDeviceType(UaResult(deviceKind, osName)) == "Game Console" ==> GetCategory(deviceKind) == "desktop"
  {
  }

  /** getSimplifiedOS: the first family whose marker the lower-cased name contains. */
  function GetSimplifiedOS(osName: string): (family: string)
    ensures family in {"Windows", "Apple", "Android", "Linux", "Other"}
    ensures osName == "" ==> family == "Other"
    ensures family == "Windows" <==> Contains(ToLower(osName), "windows")
    ensures family == "Apple" <==>
              !Contains(ToLower(osName), "windows") &&
              (Contains(ToLower(osName), "mac") || Contains(ToLower(osName), "ios"))
    ensures family == "Android" <==>
              !Contains(ToLower(osName), "windows") &&
              !(Contains(ToLower(osName), "mac") || Contains(ToLower(osName), "ios")) &&
              Contains(ToLower(osName), "android")
    ensures family == "Linux" <==>
              !Contains(ToLower(osName), "windows") &&
              !(Contains(ToLower(osName), "mac") || Contains(ToLower(osName), "ios")) &&
              !Contains(ToLower(osName), "android") &&
              Contains(ToLower(osName), "linux")
  {
    if osName == "" then
      assert !Contains(ToLower(osName), "windows");
      assert !Contains(ToLower(osName), "mac") && !Contains(ToLower(osName), "ios");
      assert !Contains(ToLower(osName), "android") && !Contains(ToLower(osName), "linux");
      "Other"
    else
      var lower := ToLower(osName);
      if Contains(lower, "windows") then "Windows"
      else if Contains(lower, "mac") || Contains(lower, "ios") then "Apple"
      else if Contains(lower, "android") then "Android"
      else if Contains(lower, "linux") then "Linux"
      else "Other"
  }

  /** The grouping ignores letter case. */
  lemma SimplifiedOSIgnoresCase(a: string, b: string)
    requires ToLower(a) == ToLower(b)
    ensures GetSimplifiedOS(a) == GetSimplifiedOS(b)
  {
    assert |a| == |b|;
  }

  /** An OS the grouping calls Android makes the device-type fallback say "Mobile Device";
      one it does not call Windows and that the fallback calls mobile is Apple or Android. */
  lemma SimplifiedOSAgreesWithFallback(osName: string)
    ensures GetSimplifiedOS(osName) == "Android" ==> GetDeviceType(UaResult("", osName)) == "Mobile Device"
    ensures GetSimplifiedOS(osName) != "Windows" && GetDeviceType(UaResult("", osName)) == "Mobile Device" ==>
              GetSimplifiedOS(osName) in {"Apple", "Android"}
  {
  }

  /** `parts.join(' ')`. */
  function JoinWithSpaces(parts: seq<string>): string
  {
    if |parts| == 0 then "" else if |parts| == 1 then parts[0] else parts[0] + " " + JoinWithSpaces(parts[1..])
  }

  lemma JoinAppend(parts: seq<string>, last: string)
    requires |parts| >= 1
    ensures JoinWithSpaces(parts + [last]) == JoinWithSpaces(parts) + " " + last
    decreases |parts|
  {
    if |parts| > 1 {
      assert (parts + [last])[1..] == parts[1..] + [last];
      JoinAppend(parts[1..], last);
    } else {
      assert parts + [last] == [parts[0], last];
    }
  }

  /** The parenthesised OS part of a device description: `(os)` or `(os version)`. */
  function OsLabel(info: DeviceInfo): string
  {
    "(" + info.os + (if info.osVersion != "" then " " + info.osVersion else "") + ")"
  }

  /** What names the device: the model when known, otherwise the device label. */
  function DeviceName(info: DeviceInfo): string
  {
    if info.model != "" then info.model else info.device
  }

  /** formatDevice: manufacturer (if any), then the device name, then the OS label
      (if an OS is known), separated by single spaces. */
  method FormatDevice(info: DeviceInfo) returns (text: string)
    ensures text ==
      (if info.manufacturer != "" then info.manufacturer + " " else "")
      + DeviceName(info)
      + (if info.os != "" then " " + OsLabel(info) else "")
  {
    var parts: seq<string> := [];
    if info.manufacturer != "" {
      parts := parts + [info.manufacturer];
    }
    parts := parts + [DeviceName(info)];
    ghost var lead := JoinWithSpaces(parts);
    assert lead == (if info.manufacturer != "" then info.manufacturer + " " else "") + DeviceName(info) by {
      if info.manufacturer != "" {
        JoinAppend([info.manufacturer], DeviceName(info));
      }
    }
    if info.os != "" {
      JoinAppend(parts, OsLabel(info));
      parts := parts + [OsLabel(info)];
    }
    text := JoinWithSpaces(parts);
  }
}

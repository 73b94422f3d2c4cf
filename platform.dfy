/**
 * `getPlatform()`: classification of the browser from `navigator.userAgent`
 * and `navigator.platform`, both passed in as parameters.
 */
module Platform {
  import opened JsText

  datatype Os = MacOS | IOS | Windows | Android | Linux

  const MacPlatforms: seq<string> := ["Macintosh", "MacIntel", "MacPPC", "Mac68K"]
  const WindowsPlatforms: seq<string> := ["Win32", "Win64", "Windows", "WinCE"]
  const IosPlatforms: seq<string> := ["iPhone", "iPad", "iPod"]

  /** The platform lists are tried first, in the order Mac, iOS, Windows (exact
      matches); then an "Android" user agent; then a platform containing "Linux";
      otherwise null. */
  function GetPlatform(userAgent: string, platform: string): (os: Option<Os>)
    ensures os == Some(MacOS) <==> platform in MacPlatforms
    ensures os == Some(IOS) <==> platform in IosPlatforms
    ensures os == Some(Windows) <==> platform in WindowsPlatforms
    ensures os == Some(Android) <==>
      platform !in MacPlatforms + IosPlatforms + WindowsPlatforms && Includes(userAgent, "Android")
    ensures os == Some(Linux) <==>
      platform !in MacPlatforms + IosPlatforms + WindowsPlatforms && !Includes(userAgent, "Android")
      && Includes(platform, "Linux")
    ensures os == None <==>
      platform !in MacPlatforms + IosPlatforms + WindowsPlatforms && !Includes(userAgent, "Android")
      && !Includes(platform, "Linux")
  {
    if platform in MacPlatforms then Some(MacOS)
    else if platform in IosPlatforms then Some(IOS)
    else if platform in WindowsPlatforms then Some(Windows)
    else if Includes(userAgent, "Android") then Some(Android)
    else if Includes(platform, "Linux") then Some(Linux)
    else None
  }
}

/**
 * The update check: the published update description is fetched, its download address is
 * chosen for the running platform, and it is offered only when its version is newer than the
 * running one. The fetch, the JSON reading and the platform query are inputs here; version
 * strings are read by a parameter standing in for `Version.TryParse`.
 */
module UpdateService {
  import opened Wrappers
  import opened Text

  datatype Platform = Windows | MacOS | Linux | OtherPlatform
  datatype Architecture = Arm64 | OtherArchitecture

  /** The published update description; every field may be missing. */
  datatype UpdateInfo = UpdateInfo(
    version: Option<string>,
    url: Option<string>,
    releaseNotes: Option<string>,
    urlWindows: Option<string>,
    urlMacIntel: Option<string>,
    urlMacArm: Option<string>,
    urlLinux: Option<string>)

  /** `string.IsNullOrEmpty`. */
  predicate IsNullOrEmpty(s: Option<string>) {
    s.None? || s.value == ""
  }

  /**
   * A four-part version; a part the text left out is -1, as `System.Version` reports an
   * undefined build or revision.
   */
  datatype Version = Version(major: int, minor: int, build: int, revision: int)

  /** `latest > current` on versions: the parts compared in order, the first difference decides. */
  predicate Newer(latest: Version, current: Version) {
    latest.major > current.major
    || (latest.major == current.major && latest.minor > current.minor)
    || (latest.major == current.major && latest.minor == current.minor && latest.build > current.build)
    || (latest.major == current.major && latest.minor == current.minor && latest.build == current.build
        && latest.revision > current.revision)
  }

  /** `Newer` is a strict total order: irreflexive, transitive, and any two distinct versions compare. */
  lemma NewerIsStrictTotalOrder(a: Version, b: Version, c: Version)
    ensures !Newer(a, a)
    ensures Newer(a, b) && Newer(b, c) ==> Newer(a, c)
    ensures a != b ==> (Newer(a, b) <==> !Newer(b, a))
  {
  }

  /**
   * `ResolvePlatformUrl`: on Windows the Windows address replaces the legacy one when it is
   * present and non-empty; on macOS the Arm or Intel address by architecture; on Linux the
   * Linux address; elsewhere none. Nothing but the chosen address changes.
   */
  function ResolvePlatformUrl(info: UpdateInfo, platform: Platform, arch: Architecture): (r: UpdateInfo)
    ensures r == info.(url := r.url)
    ensures platform == Windows ==> (IsNullOrEmpty(r.url) <==> IsNullOrEmpty(info.urlWindows) && IsNullOrEmpty(info.url))
    ensures platform == Windows && IsNullOrEmpty(info.urlWindows) ==> r.url == info.url
    ensures platform != Windows ==> r.url in {info.urlMacArm, info.urlMacIntel, info.urlLinux, None}
    ensures platform == MacOS ==> r.url == (if arch == Arm64 then info.urlMacArm else info.urlMacIntel)
    ensures platform == Linux ==> r.url == info.urlLinux
    ensures platform == OtherPlatform ==> r.url == None
  {
    match platform
    case Windows => if !IsNullOrEmpty(info.urlWindows) then info.(url := info.urlWindows) else info
    case MacOS => info.(url := if arch == Arm64 then info.urlMacArm else info.urlMacIntel)
    case Linux => info.(url := info.urlLinux)
    case OtherPlatform => info.(url := None)
  }

  /** Resolving twice is resolving once. */
  lemma ResolveIsIdempotent(info: UpdateInfo, platform: Platform, arch: Architecture)
    ensures ResolvePlatformUrl(ResolvePlatformUrl(info, platform, arch), platform, arch)
         == ResolvePlatformUrl(info, platform, arch)
  {
  }

  /** The legacy address reaches a client only on Windows. */
  lemma LegacyUrlOnlyOnWindows(info: UpdateInfo, platform: Platform, arch: Architecture)
    requires platform != Windows
    requires info.url !in {info.urlMacArm, info.urlMacIntel, info.urlLinux, None}
    ensures ResolvePlatformUrl(info, platform, arch).url != info.url
  {
  }

  /**
   * `CheckForUpdateAsync`. `fetched` is the deserialised description, `None` when the fetch
   * or the reading failed or the document was `null`; `parse` is `Version.TryParse`. The
   * description, with its address resolved, is returned exactly when it has a version, an
   * address for this platform, and a version text that parses to something newer than
   * `current`.
   */
  function CheckForUpdate(fetched: Option<UpdateInfo>, current: Version, platform: Platform,
                          arch: Architecture, parse: string -> Option<Version>): (r: Option<UpdateInfo>)
    ensures fetched.None? || fetched.value.version.None? ==> r.None?
    ensures r.Some? ==> fetched.Some? && r.value == ResolvePlatformUrl(fetched.value, platform, arch)
    ensures r.Some? ==> !IsNullOrEmpty(r.value.url) && r.value.version == fetched.value.version
    ensures r.Some? <==>
      fetched.Some? && fetched.value.version.Some?
      && !IsNullOrEmpty(ResolvePlatformUrl(fetched.value, platform, arch).url)
      && parse(Trim(fetched.value.version.value)).Some?
      && Newer(parse(Trim(fetched.value.version.value)).value, current)
  {
    match fetched
    case None => None
    case Some(info) =>
      match info.version
      case None => None
      case Some(v) =>
        var resolved := ResolvePlatformUrl(info, platform, arch);
        if IsNullOrEmpty(resolved.url) then None
        else
          match parse(Trim(v))
          case Some(latest) => if Newer(latest, current) then Some(resolved) else None
          case None => None
  }

  /** No update is offered on a platform the application does not know. */
  lemma NoUpdateOnUnknownPlatform(fetched: Option<UpdateInfo>, current: Version, arch: Architecture,
                                  parse: string -> Option<Version>)
    ensures CheckForUpdate(fetched, current, OtherPlatform, arch, parse).None?
  {
  }

  /** An update offered to one version is offered to every older one, never to a newer one. */
  lemma OfferedToOlderVersions(fetched: Option<UpdateInfo>, current: Version, older: Version, platform: Platform,
                               arch: Architecture, parse: string -> Option<Version>)
    requires CheckForUpdate(fetched, current, platform, arch, parse).Some?
    requires Newer(current, older)
    ensures CheckForUpdate(fetched, older, platform, arch, parse).Some?
  {
    var latest := parse(Trim(fetched.value.version.value)).value;
    NewerIsStrictTotalOrder(latest, current, older);
  }

  /** The running version is never offered to itself. */
  lemma NeverOfferedOwnVersion(info: UpdateInfo, platform: Platform, arch: Architecture,
                               parse: string -> Option<Version>)
    requires info.version.Some? && parse(Trim(info.version.value)).Some?
    ensures CheckForUpdate(Some(info), parse(Trim(info.version.value)).value, platform, arch, parse).None?
  {
    NewerIsStrictTotalOrder(parse(Trim(info.version.value)).value, parse(Trim(info.version.value)).value,
                            parse(Trim(info.version.value)).value);
  }
}

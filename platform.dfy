/** Resolution of the prebuilt executable's file name from the operating
    system and CPU architecture the wrapper runs on. The original reads both
    from the process at load time; here they are parameters. */
module Platform {
  import opened Results
  import opened Strings

  /** The placeholder every release template carries once. */
  const ArchPlaceholder := "%ARCH"

  /** Operating system identifier to release file name template. */
  const PlatformReleaseMap: map<string, string> := map[
    "darwin" := "fetch_darwin_%ARCH",
    "freebsd" := "fetch_linux_%ARCH",
    "linux" := "fetch_linux_%ARCH",
    "win32" := "fetch_windows_%ARCH.exe"
  ]

  /** CPU architecture identifier to the release's architecture token. */
  const ArchMap: map<string, string> := map[
    "x64" := "amd64",
    "ia32" := "386"
  ]

  /** The text substituted for the placeholder. An architecture missing from
      the table is not rejected: the lookup is `undefined`, which `replace`
      turns into the text "undefined". */
  function ArchToken(arch: string): (token: string)
    ensures arch in ArchMap ==> token == ArchMap[arch]
    ensures arch !in ArchMap ==> token == "undefined"
    ensures '%' !in token
  {
    if arch in ArchMap then ArchMap[arch] else "undefined"
  }

  /** The executable's file name: the platform's template with the
      architecture token in place of the placeholder. A platform missing
      from the table makes `replace` throw. The name is the one the release
      naming scheme gives, `fetch_<os>_<arch token><extension>`, and it
      holds no leftover placeholder. */
  function BinaryName(platform: string, arch: string): (r: Result<string>)
    ensures r.Ok? <==> SupportedPlatform(platform)
    ensures r.Ok? ==>
      r.value == "fetch_" + ReleaseOs(platform) + "_" + ArchToken(arch) + ReleaseExtension(platform)
    ensures r.Ok? ==> '%' !in r.value
    ensures r.Err? ==> r.error == UnsupportedPlatform(platform)
  {
    if platform in PlatformReleaseMap then
      TemplateShape(platform);
      SubstituteArch("fetch_" + ReleaseOs(platform) + "_", ReleaseExtension(platform), ArchToken(arch));
      Ok(ReplaceFirst(PlatformReleaseMap[platform], ArchPlaceholder, ArchToken(arch)))
    else
      Err(UnsupportedPlatform(platform))
  }

  // An independent description of the release naming scheme, against which
  // the table-driven resolution is proved.

  /** The operating system part of a release name; FreeBSD uses the Linux build. */
  function ReleaseOs(platform: string): string
  {
    match platform
    case "darwin" => "darwin"
    case "win32" => "windows"
    case _ => "linux"
  }

  /** Only the Windows build carries a file extension. */
  function ReleaseExtension(platform: string): string
  {
    if platform == "win32" then ".exe" else ""
  }

  predicate SupportedPlatform(platform: string)
  {
    platform == "darwin" || platform == "freebsd" || platform == "linux" || platform == "win32"
  }

  /** Replacing the placeholder in `prefix + "%ARCH" + suffix` when `prefix`
      holds no `%` puts the token exactly between `prefix` and `suffix`. */
  lemma SubstituteArch(prefix: string, suffix: string, token: string)
    requires '%' !in prefix
    ensures ReplaceFirst(prefix + ArchPlaceholder + suffix, ArchPlaceholder, token) == prefix + token + suffix
  {
    var t := prefix + ArchPlaceholder + suffix;
    var i := |prefix|;
    assert t[i..i + |ArchPlaceholder|] == ArchPlaceholder;
    forall j | 0 <= j < i ensures !OccursAt(t, ArchPlaceholder, j) {
      assert t[j] == prefix[j] && prefix[j] in prefix;
      assert j + |ArchPlaceholder| <= |t| ==> t[j..j + |ArchPlaceholder|][0] == t[j];
    }
    ReplaceFirstAt(t, ArchPlaceholder, token, i);
    assert t[..i] == prefix;
    assert t[i + |ArchPlaceholder|..] == suffix;
  }

  /** Each template is the release name with the placeholder for the token. */
  lemma TemplateShape(platform: string)
    requires SupportedPlatform(platform)
    ensures platform in PlatformReleaseMap
    ensures PlatformReleaseMap[platform]
      == ("fetch_" + ReleaseOs(platform) + "_") + ArchPlaceholder + ReleaseExtension(platform)
    ensures '%' !in "fetch_" + ReleaseOs(platform) + "_"
    ensures '%' !in ReleaseExtension(platform)
  {
    var prefix := "fetch_" + ReleaseOs(platform) + "_";
    if platform == "darwin" {
      assert prefix == "fetch_darwin_";
      assert PlatformReleaseMap[platform] == "fetch_darwin_" + ArchPlaceholder + "";
    } else if platform == "win32" {
      assert prefix == "fetch_windows_";
      assert PlatformReleaseMap[platform] == "fetch_windows_" + ArchPlaceholder + ".exe";
    } else {
      assert prefix == "fetch_linux_";
      assert PlatformReleaseMap[platform] == "fetch_linux_" + ArchPlaceholder + "";
    }
  }

  /** An architecture missing from its table is not an error: the name
      carries the text "undefined" where the token belongs. */
  lemma BinaryNameUnknownArch(platform: string, arch: string)
    requires SupportedPlatform(platform)
    requires arch !in ArchMap
    ensures BinaryName(platform, arch)
      == Ok("fetch_" + ReleaseOs(platform) + "_undefined" + ReleaseExtension(platform))
  {
    assert "fetch_" + ReleaseOs(platform) + "_" + "undefined" == "fetch_" + ReleaseOs(platform) + "_undefined";
  }

  /** Linux and FreeBSD both run the Linux build, without an extension. */
  lemma BinaryNameLinuxBuild(platform: string, arch: string)
    requires platform == "linux" || platform == "freebsd"
    ensures BinaryName(platform, arch) == Ok("fetch_linux_" + ArchToken(arch))
  {
    assert "fetch_" + ReleaseOs(platform) + "_" == "fetch_linux_";
    assert "fetch_linux_" + ArchToken(arch) + "" == "fetch_linux_" + ArchToken(arch);
  }

  /** macOS runs the Darwin build, without an extension. */
  lemma BinaryNameDarwin(arch: string)
    ensures BinaryName("darwin", arch) == Ok("fetch_darwin_" + ArchToken(arch))
  {
    assert "fetch_" + ReleaseOs("darwin") + "_" == "fetch_darwin_";
    assert "fetch_darwin_" + ArchToken(arch) + "" == "fetch_darwin_" + ArchToken(arch);
  }

  /** Windows gets the `.exe` suffix after the token, whatever the
      architecture. */
  lemma BinaryNameWindows(arch: string)
    ensures BinaryName("win32", arch) == Ok("fetch_windows_" + ArchToken(arch) + ".exe")
  {
    assert "fetch_" + ReleaseOs("win32") + "_" == "fetch_windows_";
  }
}

/*
 * Model of the project-generator script Build/dava_gen.py: the mapping from a
 * destination platform to a CMake generator and toolchain, the parsing of the
 * extra command-line flags, and the regular-expression split that locates the
 * dava.framework folder inside the script's own path.
 *
 * The script's module globals g_is_console and g_is_uap are passed in and out
 * explicitly as a GenFlags value; platform.system() (the host OS name) and the
 * already normalised script path are parameters.
 */
module DavaGen {

  import opened Wrappers

  /** The two globals that parse_additional_params sets. */
  datatype GenFlags = GenFlags(isConsole: bool, isUap: bool)

  /** Python's str.lower restricted to ASCII letters. */
  function LowerChar(c: char): char
  {
    if 'A' <= c <= 'Z' then (c as int + 32) as char else c
  }

  function Lower(s: string): (r: string)
    ensures |r| == |s|
    ensures forall i :: 0 <= i < |s| ==> r[i] == LowerChar(s[i])
  {
    seq(|s|, i requires 0 <= i < |s| => LowerChar(s[i]))
  }

  /** Lower-casing twice is lower-casing once, so every comparison below is case-insensitive. */
  lemma LowerIdempotent(s: string)
    ensures Lower(Lower(s)) == Lower(s)
  {
    forall i | 0 <= i < |s|
      ensures Lower(Lower(s))[i] == Lower(s)[i]
    {
      assert Lower(s)[i] == LowerChar(s[i]);
    }
  }

  // ---------------------------------------------------------------------------
  // get_project_type
  // ---------------------------------------------------------------------------

  /**
   * The generator string as a table of cases. For android the host test is an
   * `if` followed by an independent `if`/`else`, so a MinGW host gets both the
   * MinGW and the Unix generator names glued together.
   */
  function ProjectTypeTable(platform: string, isConsole: bool, host: string): string
  {
    var p := Lower(platform);
    if p == "macos" || p == "ios" then "Xcode"
    else if p == "windows" then "Visual Studio 12"
    else if p == "android" then AndroidTable(isConsole, host)
    else ""
  }

  /** The android generator: an Eclipse prefix unless console, then the host's make flavour(s). */
  function AndroidTable(isConsole: bool, host: string): string
  {
    (if isConsole then "" else "Eclipse CDT4 - ") +
    (if host == "MinGW" then "Mingw Makefiles" else "") +
    (if host == "Windows" then "NMake Makefiles" else "Unix Makefiles")
  }

  predicate SupportedPlatform(p: string)
  {
    p == "macos" || p == "ios" || p == "android" || p == "windows"
  }

  /** get_project_type: builds the generator name by successive appends. */
  method GetProjectType(dstPlatform: string, isConsole: bool, host: string) returns (projectString: string)
    ensures projectString == ProjectTypeTable(dstPlatform, isConsole, host)
  {
    var p := Lower(dstPlatform);
    projectString := "";
    if p == "macos" || p == "ios" {
      projectString := projectString + "Xcode";
    }
    if p == "windows" {
      projectString := projectString + "Visual Studio 12";
    }
    if p == "android" {
      var generator := AndroidGenerator(isConsole, host);
      projectString := projectString + generator;
    }
  }

  /** The android part of get_project_type: the appends that depend on the console flag and the host system. */
  method AndroidGenerator(isConsole: bool, host: string) returns (projectString: string)
    ensures projectString == AndroidTable(isConsole, host)
  {
    projectString := "";
    if !isConsole {
      projectString := projectString + "Eclipse CDT4 - ";
    }
    if host == "MinGW" {
      projectString := projectString + "Mingw Makefiles";
    }
    if host == "Windows" {
      projectString := projectString + "NMake Makefiles";
    } else {
      projectString := projectString + "Unix Makefiles";
    }
  }

  /** No generator is chosen exactly for the platforms the script does not know. */
  lemma ProjectTypeEmptyIffUnsupported(platform: string, isConsole: bool, host: string)
    ensures ProjectTypeTable(platform, isConsole, host) == "" <==> !SupportedPlatform(Lower(platform))
  {
  }

  /** The platform name is compared case-insensitively. */
  lemma ProjectTypeIgnoresCase(platform: string, isConsole: bool, host: string)
    ensures ProjectTypeTable(Lower(platform), isConsole, host) == ProjectTypeTable(platform, isConsole, host)
  {
    LowerIdempotent(platform);
  }

  // ---------------------------------------------------------------------------
  // get_toolchain
  // ---------------------------------------------------------------------------

  const ToolchainFlag := "-DCMAKE_TOOLCHAIN_FILE="
  const IosToolchain := "ios.toolchain.cmake"
  const AndroidToolchain := "android.toolchain.cmake"

  /**
   * get_toolchain. Unlike get_project_type it does not lower-case the platform:
   * "IOS" yields no toolchain. `toolchainsFullPath` is g_toolchains_full_path.
   */
  function GetToolchain(dstPlatform: string, toolchainsFullPath: string): (r: string)
    ensures r == "" <==> dstPlatform != "ios" && dstPlatform != "android"
    ensures dstPlatform == "ios" ==>
              (|r| == |ToolchainFlag + toolchainsFullPath| + |IosToolchain| &&
               r[..|ToolchainFlag + toolchainsFullPath|] == ToolchainFlag + toolchainsFullPath &&
               r[|ToolchainFlag + toolchainsFullPath|..] == IosToolchain)
    ensures dstPlatform == "android" ==>
              (|r| == |ToolchainFlag + toolchainsFullPath| + |AndroidToolchain| &&
               r[..|ToolchainFlag + toolchainsFullPath|] == ToolchainFlag + toolchainsFullPath &&
               r[|ToolchainFlag + toolchainsFullPath|..] == AndroidToolchain)
  {
    var base := ToolchainFlag + toolchainsFullPath;
    if dstPlatform == "ios" then base + IosToolchain
    else if dstPlatform == "android" then base + AndroidToolchain
    else ""
  }

  // ---------------------------------------------------------------------------
  // parse_additional_params
  // ---------------------------------------------------------------------------

  predicate KnownParam(p: string)
  {
    Lower(p) == "console" || Lower(p) == "uap"
  }

  /** What parsing `params` from `f` yields: success, and the flags afterwards. */
  function ParseParams(params: seq<string>, f: GenFlags): (bool, GenFlags)
  {
    if params == [] then (true, f)
    else
      var p := Lower(params[0]);
      if p == "console" then ParseParams(params[1..], f.(isConsole := true))
      else if p == "uap" then ParseParams(params[1..], f.(isUap := true))
      else (false, f)
  }

  /**
   * parse_additional_params. `additional` is None when argparse gave no list.
   * The loop stops at the first unsupported parameter; the flags set before it
   * stay set, as the globals do in the script.
   */
  method ParseAdditionalParams(additional: Option<seq<string>>, flags: GenFlags) returns (ok: bool, flags': GenFlags)
    ensures additional.None? ==> ok && flags' == flags
    ensures additional.Some? ==> (ok, flags') == ParseParams(additional.value, flags)
  {
    if additional.None? || additional.value == [] {
      return true, flags;
    }
    var params := additional.value;
    flags' := flags;
    var i := 0;
    while i < |params|
      invariant 0 <= i <= |params|
      invariant ParseParams(params, flags) == ParseParams(params[i..], flags')
    {
      var param := Lower(params[i]);
      assert params[i..][0] == params[i] && params[i..][1..] == params[i + 1..];
      if param == "console" {
        flags' := flags'.(isConsole := true);
      } else if param == "uap" {
        flags' := flags'.(isUap := true);
      } else {
        return false, flags';
      }
      i := i + 1;
    }
    assert params[i..] == [];
    ok := true;
  }

  /** Parsing succeeds exactly when every parameter is "console" or "uap" in some case. */
  lemma {:induction false} ParseOkIffAllKnown(params: seq<string>, f: GenFlags)
    ensures ParseParams(params, f).0 <==> forall i :: 0 <= i < |params| ==> KnownParam(params[i])
  {
    if params != [] {
      var f' := if Lower(params[0]) == "console" then f.(isConsole := true) else f.(isUap := true);
      ParseOkIffAllKnown(params[1..], f');
      assert forall i :: 1 <= i < |params| ==> params[1..][i - 1] == params[i];
    }
  }

  /** Flags are only ever set, never cleared. */
  lemma {:induction false} ParseOnlySetsFlags(params: seq<string>, f: GenFlags)
    ensures f.isConsole ==> ParseParams(params, f).1.isConsole
    ensures f.isUap ==> ParseParams(params, f).1.isUap
  {
    if params != [] {
      var p := Lower(params[0]);
      if p == "console" {
        ParseOnlySetsFlags(params[1..], f.(isConsole := true));
      } else if p == "uap" {
        ParseOnlySetsFlags(params[1..], f.(isUap := true));
      }
    }
  }

  /** On success, the console flag is set exactly when it was set before or "console" was given. */
  lemma {:induction false} ParseSetsConsole(params: seq<string>, f: GenFlags)
    requires ParseParams(params, f).0
    ensures ParseParams(params, f).1.isConsole <==>
            (f.isConsole || exists i :: 0 <= i < |params| && Lower(params[i]) == "console")
  {
    if params != [] {
      var p := Lower(params[0]);
      var f' := if p == "console" then f.(isConsole := true) else f.(isUap := true);
      ParseSetsConsole(params[1..], f');
      assert forall i :: 1 <= i < |params| ==> params[1..][i - 1] == params[i];
      if exists i :: 0 <= i < |params| && Lower(params[i]) == "console" {
        var i :| 0 <= i < |params| && Lower(params[i]) == "console";
        if i > 0 {
          assert Lower(params[1..][i - 1]) == "console";
        }
      }
    }
  }

  // ---------------------------------------------------------------------------
  // setup_framework_env: re.split(r"(dava\.framework[^/]*/)", path)
  // ---------------------------------------------------------------------------

  const FrameworkName := "dava.framework"

  /** The first index at or after k holding '/', if any. */
  function SlashFrom(p: string, k: nat): (r: Option<nat>)
    decreases |p| - k
    ensures r.Some? ==> k <= r.value < |p| && p[r.value] == '/' &&
                        forall m :: k <= m < r.value ==> p[m] != '/'
    ensures r.None? ==> forall m :: k <= m < |p| ==> p[m] != '/'
  {
    if k >= |p| then None
    else if p[k] == '/' then Some(k)
    else SlashFrom(p, k + 1)
  }

  /**
   * Where a match of the pattern that starts at i ends (exclusive). The greedy
   * [^/]* stops at the first '/', which the pattern must then consume.
   */
  function MatchEndAt(p: string, i: nat): Option<nat>
  {
    if i + |FrameworkName| <= |p| && p[i..i + |FrameworkName|] == FrameworkName then
      match SlashFrom(p, i + |FrameworkName|)
      case Some(j) => Some(j + 1)
      case None => None
    else None
  }

  /** The leftmost match starting at or after i: its start and end. */
  function FirstMatch(p: string, i: nat): (r: Option<(nat, nat)>)
    decreases |p| - i
    ensures r.Some? ==> i <= r.value.0 < r.value.1 <= |p| && MatchEndAt(p, r.value.0) == Some(r.value.1)
    ensures r.Some? ==> forall m :: i <= m < r.value.0 ==> MatchEndAt(p, m).None?
    ensures r.None? ==> forall m :: i <= m ==> MatchEndAt(p, m).None?
  {
    if i >= |p| then None
    else match MatchEndAt(p, i)
      case Some(e) => Some((i, e))
      case None => FirstMatch(p, i + 1)
  }

  /**
   * Python's re.split with one capturing group: the pieces between matches,
   * with each matched text in between.
   */
  function ReSplit(p: string): (r: seq<string>)
    decreases |p|
    ensures |r| % 2 == 1
  {
    match FirstMatch(p, 0)
    case None => [p]
    case Some((s, e)) => [p[..s], p[s..e]] + ReSplit(p[e..])
  }

  function Join(pieces: seq<string>): string
  {
    if pieces == [] then "" else pieces[0] + Join(pieces[1..])
  }

  /** Splitting loses nothing: the pieces concatenate back to the path. */
  lemma {:induction false} ReSplitJoin(p: string)
    ensures Join(ReSplit(p)) == p
    decreases |p|
  {
    match FirstMatch(p, 0)
    case None =>
    case Some((s, e)) =>
      ReSplitJoin(p[e..]);
      JoinSplitStep(p, s, e, ReSplit(p[e..]));
  }

  /** Two pieces cut from the front of p, followed by pieces that join to the rest, join to p. */
  lemma JoinSplitStep(p: string, s: nat, e: nat, rest: seq<string>)
    requires s <= e <= |p| && Join(rest) == p[e..]
    ensures Join([p[..s], p[s..e]] + rest) == p
  {
    var r := [p[..s], p[s..e]] + rest;
    assert r[1..] == [p[s..e]] + rest;
    assert r[1..][1..] == rest;
    assert p == p[..s] + (p[s..e] + p[e..]);
  }

  /**
   * The framework folder as setup_framework_env derives it from the normalised
   * script path: a trailing '/' is added, the path is split, and tail[0] + tail[1]
   * is taken when there are at least three pieces. None stands for the empty
   * g_framework_path that makes the function return False.
   */
  function FrameworkPath(path: string): (r: Option<string>)
    ensures r.Some? ==>
              var p := if |path| > 0 && path[|path| - 1] == '/' then path else path + "/";
              0 < |r.value| <= |p| && r.value == p[..|r.value|] && r.value[|r.value| - 1] == '/'
  {
    var p := if |path| > 0 && path[|path| - 1] == '/' then path else path + "/";
    var tail := ReSplit(p);
    SplitHead(p);
    if |tail| >= 3 then Some(tail[0] + tail[1]) else None
  }

  /** With a match, the first two pieces of the split are the path up to and including the '/' ending it. */
  lemma SplitHead(p: string)
    ensures var tail := ReSplit(p);
            |tail| >= 3 ==>
              var head := tail[0] + tail[1];
              0 < |head| <= |p| && head == p[..|head|] && head[|head| - 1] == '/'
  {
    match FirstMatch(p, 0)
    case None =>
    case Some((s, e)) =>
      FirstTwoPieces(p, s, e, ReSplit(p[e..]));
      assert p[e - 1] == '/';
  }

  /**
   * The framework path exists exactly when "dava.framework" occurs in the path,
   * and then it is the path cut just after the first '/' that follows the
   * leftmost occurrence.
   */
  lemma FrameworkPathCharacterized(path: string)
    ensures var p := if |path| > 0 && path[|path| - 1] == '/' then path else path + "/";
            match FirstMatch(p, 0)
            case None => FrameworkPath(path).None?
            case Some((s, e)) => FrameworkPath(path) == Some(p[..e]) && p[s..s + |FrameworkName|] == FrameworkName
  {
    var p := if |path| > 0 && path[|path| - 1] == '/' then path else path + "/";
    match FirstMatch(p, 0)
    case None =>
    case Some((s, e)) =>
      FirstTwoPieces(p, s, e, ReSplit(p[e..]));
      MatchStartsWithName(p, s, e);
  }

  /** Pieces that start with p[..s] and p[s..e] and go on with an odd number more: the first two join to p[..e]. */
  lemma FirstTwoPieces(p: string, s: nat, e: nat, rest: seq<string>)
    requires s <= e <= |p| && |rest| % 2 == 1
    ensures var tail := [p[..s], p[s..e]] + rest;
            |tail| >= 3 && tail[0] + tail[1] == p[..e]
  {
    assert p[..s] + p[s..e] == p[..e];
  }

  /** A match begins with the folder name. */
  lemma MatchStartsWithName(p: string, s: nat, e: nat)
    requires MatchEndAt(p, s) == Some(e)
    ensures s + |FrameworkName| <= |p| && p[s..s + |FrameworkName|] == FrameworkName
  {
  }

  /** Because a '/' is appended first, any occurrence of the folder name gives a match. */
  lemma {:induction false} OccurrenceMatches(path: string, i: nat)
    requires i + |FrameworkName| <= |path| && path[i..i + |FrameworkName|] == FrameworkName
    ensures FrameworkPath(path).Some?
  {
    var p := if |path| > 0 && path[|path| - 1] == '/' then path else path + "/";
    assert p[..|path|] == path;
    assert p[i..i + |FrameworkName|] == path[i..i + |FrameworkName|];
    assert p[|p| - 1] == '/';
    assert SlashFrom(p, i + |FrameworkName|).Some?;
    assert MatchEndAt(p, i).Some?;
    FrameworkPathCharacterized(path);
  }
}

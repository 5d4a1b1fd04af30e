/** Building the emulator's command line for one game: Windows path handling
    (basename, extension splitting, joining), the file-system probes it
    consults, and the fixed order of the optional flags. */
module Launch {
  import opened Wrappers
  import opened Games

  /** Windows accepts both separators. */
  predicate IsSep(c: char)
  {
    c == '/' || c == '\\'
  }

  /** What follows the last separator of `p` (all of `p` if it has none). */
  function AfterLastSep(p: string): string
  {
    if p == [] then []
    else if IsSep(p[|p| - 1]) then []
    else AfterLastSep(p[..|p| - 1]) + [p[|p| - 1]]
  }

  /** It is the longest suffix of `p` free of separators. */
  lemma {:induction false} AfterLastSepIsLongestSuffix(p: string)
    ensures var b := AfterLastSep(p);
      && |b| <= |p| && b == p[|p| - |b|..]
      && (forall k :: 0 <= k < |b| ==> !IsSep(b[k]))
      && (|b| < |p| ==> IsSep(p[|p| - |b| - 1]))
  {
    if p != [] && !IsSep(p[|p| - 1]) {
      var q := p[..|p| - 1];
      AfterLastSepIsLongestSuffix(q);
      var b := AfterLastSep(q);
      var bb := b + [p[|p| - 1]];
      assert AfterLastSep(p) == bb;
      forall k | 0 <= k < |bb|
        ensures !IsSep(bb[k])
      {
        if k < |b| { assert bb[k] == b[k]; }
      }
      assert q[|q| - |b|..] + [p[|p| - 1]] == p[|p| - |b| - 1..];
    }
  }

  /** A drive-letter prefix such as `C:`. */
  predicate HasDrive(p: string)
  {
    |p| >= 2 && p[1] == ':'
  }

  /** The part of `p` after its drive, if it has one. */
  function DrivelessPart(p: string): string
  {
    if HasDrive(p) then p[2..] else p
  }

  /** The file name of a path: what follows the drive and the last separator. */
  function Basename(p: string): string
  {
    AfterLastSep(DrivelessPart(p))
  }

  /** The index of the last '.' in `s`, if any. */
  function LastDot(s: string): (r: Option<nat>)
    ensures r.Some? ==> r.value < |s| && s[r.value] == '.' && forall j :: r.value < j < |s| ==> s[j] != '.'
    ensures r.None? ==> forall j :: 0 <= j < |s| ==> s[j] != '.'
  {
    if s == [] then None
    else if s[|s| - 1] == '.' then Some(|s| - 1)
    else LastDot(s[..|s| - 1])
  }

  /** Extension splitting of a file name: the name up to its last dot, unless
      every character before that dot is itself a dot (so `.ini` has no
      extension). */
  function Stem(b: string): string
  {
    match LastDot(b)
    case None => b
    case Some(k) => if exists i :: 0 <= i < k && b[i] != '.' then b[..k] else b
  }

  /** The stem is a prefix of the file name. It is shorter exactly when the
      name has a last dot preceded by some character that is not a dot, and
      then it is the name cut at that dot. */
  lemma StemSplitsAtLastDot(b: string)
    ensures |Stem(b)| <= |b| && Stem(b) == b[..|Stem(b)|]
    ensures Stem(b) != b ==>
              && b[|Stem(b)|] == '.'
              && (forall j :: |Stem(b)| < j < |b| ==> b[j] != '.')
              && (exists i :: 0 <= i < |Stem(b)| && Stem(b)[i] != '.')
    ensures (forall j :: 0 <= j < |b| ==> b[j] != '.') ==> Stem(b) == b
    ensures LastDot(b).Some? && (exists i :: 0 <= i < LastDot(b).value && b[i] != '.') ==>
              Stem(b) == b[..LastDot(b).value]
  {
  }

  /** The name of a game's ROM without directory and extension. */
  function RomStem(path: string): string
  {
    Stem(Basename(path))
  }

  /** The ROM stem never holds a separator, so the per-game configuration
      folder sits exactly one level below the configuration root. */
  lemma RomStemHasNoSeparator(path: string)
    ensures forall k :: 0 <= k < |RomStem(path)| ==> !IsSep(RomStem(path)[k])
    ensures |RomStem(path)| <= |path|
  {
    AfterLastSepIsLongestSuffix(DrivelessPart(path));
    StemSplitsAtLastDot(Basename(path));
  }

  /** Joining a relative name onto a directory: a backslash is inserted
      unless the part after the drive is empty or already ends in a separator. */
  function Join(dir: string, name: string): string
  {
    var p := DrivelessPart(dir);
    if p != [] && !IsSep(p[|p| - 1]) then dir + "\\" + name else dir + name
  }

  /** What the launch consults on disk. Paths are compared as written. */
  datatype FileSystem = FileSystem(dirs: set<string>, files: set<string>)
  {
    predicate IsDir(p: string) { p in dirs }
    predicate Exists(p: string) { p in dirs || p in files }
  }

  /** The user configuration consulted by `launch_game`. */
  datatype LaunchOptions = LaunchOptions(
    emuPath: string, noGui: bool, fullscreen: bool, config: bool, configFolder: string)

  /** The per-game configuration folder. */
  function GameConfigFolder(opts: LaunchOptions, path: string): string
  {
    opts.configFolder + "/" + RomStem(path)
  }

  const CfgPathPrefix: string := "--cfgpath="
  const FullscreenFlag: string := "--fullscreen"
  const NoGuiFlag: string := "--nogui"
  const FullbootFlag: string := "--fullboot"
  const FullbootFile: string := "fullboot.ini"

  /** The optional flags, in the only order in which they may appear. */
  function Candidates(folder: string): seq<string>
  {
    [CfgPathPrefix + folder, FullscreenFlag, NoGuiFlag, FullbootFlag]
  }

  /** Which of the candidates are switched on, position by position. */
  function Enabled(opts: LaunchOptions, fs: FileSystem, folder: string): seq<bool>
  {
    [opts.config && fs.IsDir(folder), opts.fullscreen, opts.noGui, fs.Exists(Join(folder, FullbootFile))]
  }

  /** The elements of `xs` whose flag in `on` is set, in their order. */
  function Select(xs: seq<string>, on: seq<bool>): seq<string>
    requires |xs| == |on|
  {
    if xs == [] then [] else (if on[0] then [xs[0]] else []) + Select(xs[1..], on[1..])
  }

  /** A selected element is exactly one that was switched on. */
  lemma {:induction false} SelectMember(xs: seq<string>, on: seq<bool>, x: string)
    requires |xs| == |on|
    ensures x in Select(xs, on) <==> exists i :: 0 <= i < |xs| && on[i] && xs[i] == x
  {
    if xs != [] {
      SelectMember(xs[1..], on[1..], x);
      if x in Select(xs[1..], on[1..]) {
        var i :| 0 <= i < |xs[1..]| && on[1..][i] && xs[1..][i] == x;
        assert on[i + 1] && xs[i + 1] == x;
      }
      forall i | 1 <= i < |xs| && on[i] && xs[i] == x
        ensures x in Select(xs[1..], on[1..])
      {
        assert on[1..][i - 1] && xs[1..][i - 1] == x;
      }
    }
  }

  /** Selection keeps the relative order: two switched-on elements appear in
      the result in the order they had among the candidates. */
  lemma {:induction false} SelectKeepsOrder(xs: seq<string>, on: seq<bool>, i: int, j: int)
    requires |xs| == |on|
    requires 0 <= i < j < |xs| && on[i] && on[j]
    ensures exists p, q :: 0 <= p < q < |Select(xs, on)| && Select(xs, on)[p] == xs[i] && Select(xs, on)[q] == xs[j]
  {
    var rest := Select(xs[1..], on[1..]);
    assert Select(xs, on) == (if on[0] then [xs[0]] else []) + rest;
    if i == 0 {
      SelectMember(xs[1..], on[1..], xs[j]);
      assert on[1..][j - 1] && xs[1..][j - 1] == xs[j];
      var q :| 0 <= q < |rest| && rest[q] == xs[j];
      assert Select(xs, on)[0] == xs[0] && Select(xs, on)[q + 1] == xs[j];
    } else {
      SelectKeepsOrder(xs[1..], on[1..], i - 1, j - 1);
      var p, q :| 0 <= p < q < |rest| && rest[p] == xs[1..][i - 1] && rest[q] == xs[1..][j - 1];
      var off := if on[0] then 1 else 0;
      assert Select(xs, on)[p + off] == xs[i] && Select(xs, on)[q + off] == xs[j];
    }
  }

  /** A one-element list when `b` holds, else empty. */
  function Opt(b: bool, x: string): seq<string>
  {
    if b then [x] else []
  }

  /** Selection among four candidates, unrolled. */
  lemma SelectFour(xs: seq<string>, on: seq<bool>)
    requires |xs| == |on| == 4
    ensures Select(xs, on) == Opt(on[0], xs[0]) + Opt(on[1], xs[1]) + Opt(on[2], xs[2]) + Opt(on[3], xs[3])
  {
    assert xs[1..][1..] == xs[2..] && xs[2..][1..] == xs[3..] && xs[3..][1..] == [];
    assert on[1..][1..] == on[2..] && on[2..][1..] == on[3..] && on[3..][1..] == [];
    assert Select(xs[3..], on[3..]) == Opt(on[3], xs[3]);
    assert Select(xs[2..], on[2..]) == Opt(on[2], xs[2]) + Select(xs[3..], on[3..]);
    assert Select(xs[1..], on[1..]) == Opt(on[1], xs[1]) + Select(xs[2..], on[2..]);
    assert Select(xs, on) == Opt(on[0], xs[0]) + Select(xs[1..], on[1..]);
  }

  /** The command line for one game: the emulator, the switched-on flags in
      their fixed order, the ROM path. */
  function ArgsFor(opts: LaunchOptions, fs: FileSystem, path: string): seq<string>
  {
    ArgsWith(opts, fs, GameConfigFolder(opts, path), path)
  }

  /** The command line for a ROM whose per-game folder is `folder`. */
  function ArgsWith(opts: LaunchOptions, fs: FileSystem, folder: string, path: string): seq<string>
  {
    [opts.emuPath] + Select(Candidates(folder), Enabled(opts, fs, folder)) + [path]
  }

  /** The command line starts with the emulator and ends with the ROM; each
      flag is present exactly when its condition holds, `--cfgpath` only with
      configuration enabled and the per-game folder present, `--fullboot`
      whenever that folder holds fullboot.ini, whatever the other settings. */
  lemma ArgsForShape(opts: LaunchOptions, fs: FileSystem, path: string)
    ensures var args := ArgsFor(opts, fs, path);
      && 2 <= |args| <= 6
      && args[0] == opts.emuPath
      && args[|args| - 1] == path
      && ((CfgPathPrefix + GameConfigFolder(opts, path) in args[1..|args| - 1])
            <==> opts.config && fs.IsDir(GameConfigFolder(opts, path)))
      && (FullscreenFlag in args[1..|args| - 1] <==> opts.fullscreen)
      && (NoGuiFlag in args[1..|args| - 1] <==> opts.noGui)
      && (FullbootFlag in args[1..|args| - 1] <==> fs.Exists(Join(GameConfigFolder(opts, path), FullbootFile)))
  {
    var folder := GameConfigFolder(opts, path);
    var xs, on := Candidates(folder), Enabled(opts, fs, folder);
    var args := ArgsFor(opts, fs, path);
    assert args[1..|args| - 1] == Select(xs, on);
    assert xs[0] != xs[1] && xs[0] != xs[2] && xs[0] != xs[3] by {
      assert xs[0][2] == 'c' && xs[1][2] == 'f' && xs[2][2] == 'n' && xs[3][2] == 'f';
    }
    assert xs[1] != xs[2] && xs[1] != xs[3] && xs[2] != xs[3] by {
      assert |xs[1]| == 12 && |xs[2]| == 7 && |xs[3]| == 10;
    }
    SelectFourMembers(xs, on);
  }

  /** Among four distinct candidates, each is selected exactly when it is on. */
  lemma SelectFourMembers(xs: seq<string>, on: seq<bool>)
    requires |xs| == |on| == 4
    requires forall i, j :: 0 <= i < j < 4 ==> xs[i] != xs[j]
    ensures |Select(xs, on)| <= 4
    ensures forall k :: 0 <= k < 4 ==> (xs[k] in Select(xs, on) <==> on[k])
  {
    SelectFour(xs, on);
  }

  /** The optional flags keep their fixed order: whenever two are present,
      the one listed first among the candidates comes first. */
  lemma ArgsForOrder(opts: LaunchOptions, fs: FileSystem, path: string, i: int, j: int)
    requires 0 <= i < j < 4
    requires Enabled(opts, fs, GameConfigFolder(opts, path))[i] && Enabled(opts, fs, GameConfigFolder(opts, path))[j]
    ensures exists p, q :: 1 <= p < q < |ArgsFor(opts, fs, path)| - 1
              && ArgsFor(opts, fs, path)[p] == Candidates(GameConfigFolder(opts, path))[i]
              && ArgsFor(opts, fs, path)[q] == Candidates(GameConfigFolder(opts, path))[j]
  {
    var folder := GameConfigFolder(opts, path);
    var xs, on := Candidates(folder), Enabled(opts, fs, folder);
    SelectKeepsOrder(xs, on, i, j);
    var mid := Select(xs, on);
    var p, q :| 0 <= p < q < |mid| && mid[p] == xs[i] && mid[q] == xs[j];
    var args := ArgsFor(opts, fs, path);
    assert args[p + 1] == xs[i] && args[q + 1] == xs[j];
  }

  /** The argument list as `_launch_game` builds it, one append at a time. */
  method BuildArgs(opts: LaunchOptions, fs: FileSystem, path: string) returns (args: seq<string>)
    ensures args == ArgsFor(opts, fs, path)
  {
    var romFile := RomStem(path);
    var configFolderGame := opts.configFolder + "/" + romFile;
    args := [opts.emuPath];
    if opts.config && fs.IsDir(configFolderGame) {
      var configArg := CfgPathPrefix + configFolderGame;
      args := args + [configArg];
    }
    if opts.fullscreen {
      args := args + [FullscreenFlag];
    }
    if opts.noGui {
      args := args + [NoGuiFlag];
    }
    if fs.Exists(Join(configFolderGame, FullbootFile)) {
      args := args + [FullbootFlag];
    }
    args := args + [path];
    ArgsUnrolled(opts, fs, configFolderGame, path);
    assert configFolderGame == GameConfigFolder(opts, path);
  }

  /** The command line with the selection written out flag by flag. */
  lemma ArgsUnrolled(opts: LaunchOptions, fs: FileSystem, folder: string, path: string)
    ensures ArgsWith(opts, fs, folder, path) ==
              [opts.emuPath]
              + Opt(opts.config && fs.IsDir(folder), CfgPathPrefix + folder)
              + Opt(opts.fullscreen, FullscreenFlag)
              + Opt(opts.noGui, NoGuiFlag)
              + Opt(fs.Exists(Join(folder, FullbootFile)), FullbootFlag)
              + [path]
  {
    var xs, on := Candidates(folder), Enabled(opts, fs, folder);
    SelectFour(xs, on);
    var o0, o1, o2, o3 := Opt(on[0], xs[0]), Opt(on[1], xs[1]), Opt(on[2], xs[2]), Opt(on[3], xs[3]);
    Regroup([opts.emuPath], o0, o1, o2, o3, [path]);
  }

  /** Concatenation regrouped. */
  lemma Regroup(e: seq<string>, a: seq<string>, b: seq<string>, c: seq<string>, d: seq<string>, p: seq<string>)
    ensures e + (a + b + c + d) + p == e + a + b + c + d + p
  {
  }

  /** The catalog position of the first game with `id`. */
  function FirstWithId(games: seq<Game>, id: string): (r: Option<nat>)
    ensures r.Some? ==> r.value < |games| && games[r.value].id == id
                        && forall j :: 0 <= j < r.value ==> games[j].id != id
    ensures r.None? ==> forall j :: 0 <= j < |games| ==> games[j].id != id
  {
    if games == [] then None
    else if games[0].id == id then Some(0)
    else match FirstWithId(games[1..], id)
      case None => None
      case Some(k) => Some(k + 1)
  }

  /** The command line a launch request for `id` starts, if any game matches:
      only the first matching game is launched. */
  function LaunchFor(games: seq<Game>, id: string, opts: LaunchOptions, fs: FileSystem): Option<seq<string>>
  {
    match FirstWithId(games, id)
    case None => None
    case Some(i) => Some(ArgsFor(opts, fs, games[i].path))
  }
}

/**
 * The live toolchain detection and addr2line launcher of
 * `src/platforms/addr2line.rs`, and the `debug addr2line` dispatch of
 * `src/commands/debug.rs` that composes them.
 */
module PlatformsAddr2line {
  import opened Wrappers
  import opened Bytes
  import Paths
  import Process
  import LegacyAddr2line

  /** A toolchain of the registry, with the console it builds for. */
  datatype Candidate = Candidate(binary: string, magic: seq<byte>, args: seq<string>,
                                 searchPath: string, device: string)

  /** The registry, in table order. */
  const CANDIDATES: seq<Candidate> := [
    Candidate("arm-none-eabi-addr2line", Ascii("3dsx_crt0.o"), ["arm"], "devkitARM/bin", "Nintendo 3DS"),
    Candidate("aarch64-none-elf-addr2line", Ascii("switch_crt0.o"), [""], "devkitA64/bin", "Nintendo Switch"),
    Candidate("powerpc-eabi-addr2line", Ascii("crt0_rpx.o"), [""], "devkitPPC/bin", "Nintendo Wii\U{1D58}")
  ]

  /**
   * Every marker is non-empty, and no marker occurs inside another; in
   * particular the markers are pairwise distinct and none is a prefix or a
   * suffix of another.
   */
  lemma RegistryMarkersDisjoint()
    ensures forall k :: 0 <= k < |CANDIDATES| ==> CANDIDATES[k].magic != []
    ensures forall j, k :: 0 <= j < |CANDIDATES| && 0 <= k < |CANDIDATES| && j != k ==>
      !Occurs(CANDIDATES[k].magic, CANDIDATES[j].magic)
  {
    var ds, sw, wu := CANDIDATES[0].magic, CANDIDATES[1].magic, CANDIDATES[2].magic;
    forall i | 0 <= i <= 2 ensures sw[i] != ds[0] {
      if i == 0 {} else if i == 1 {} else {}
    }
    FirstByteAbsent(ds, sw);
    forall i | 0 <= i <= 1 ensures ds[i] != wu[0] {
      if i == 0 {} else {}
    }
    FirstByteAbsent(wu, ds);
    forall i | 0 <= i <= 3 ensures sw[i] != wu[0] {
      if i == 0 {} else if i == 1 {} else if i == 2 {} else {}
    }
    FirstByteAbsent(wu, sw);
  }

  /** The search patterns, in table order: pattern `i` is the marker of `CANDIDATES[i]`. */
  function Patterns(): (pats: seq<seq<byte>>)
    ensures |pats| == |CANDIDATES|
    ensures forall i :: 0 <= i < |pats| ==> pats[i] == CANDIDATES[i].magic
  {
    seq(|CANDIDATES|, i requires 0 <= i < |CANDIDATES| => CANDIDATES[i].magic)
  }

  /** `pat` occurs in `data` ending just before offset `e`. */
  predicate EndsAt(pat: seq<byte>, data: seq<byte>, e: int)
  {
    OccursAt(pat, data, e - |pat|)
  }

  /** The lowest-numbered pattern, from `k` on, that ends at offset `e`. */
  function FinishingAt(pats: seq<seq<byte>>, data: seq<byte>, e: int, k: nat): (r: Option<nat>)
    ensures r.Some? ==> k <= r.value < |pats| && EndsAt(pats[r.value], data, e)
    ensures r.Some? ==> forall j :: k <= j < r.value ==> !EndsAt(pats[j], data, e)
    ensures r.None? ==> forall j :: k <= j < |pats| ==> !EndsAt(pats[j], data, e)
    decreases |pats| - k
  {
    if k >= |pats| then None
    else if EndsAt(pats[k], data, e) then Some(k)
    else FinishingAt(pats, data, e, k + 1)
  }

  /**
   * The first match a multi-pattern stream search reports under standard
   * match semantics, looking at end offsets from `e` on: the pattern whose
   * occurrence ends first, with its end offset. Among patterns ending at
   * the same offset the lowest index is this model's own choice; with the
   * registry's markers, none of which occurs inside another, it never applies.
   */
  function FirstFinished(pats: seq<seq<byte>>, data: seq<byte>, e: nat): (r: Option<(nat, nat)>)
    ensures r.Some? ==> r.value.0 < |pats| && e <= r.value.1 <= |data|
    ensures r.Some? ==> EndsAt(pats[r.value.0], data, r.value.1)
    ensures r.Some? ==> forall j, f :: 0 <= j < |pats| && e <= f < r.value.1 ==> !EndsAt(pats[j], data, f)
    ensures r.Some? ==> forall j :: 0 <= j < r.value.0 ==> !EndsAt(pats[j], data, r.value.1)
    ensures r.None? ==> forall j, f :: 0 <= j < |pats| && e <= f <= |data| ==> !EndsAt(pats[j], data, f)
    decreases |data| + 1 - e
  {
    if e > |data| then None
    else match FinishingAt(pats, data, e, 0)
      case Some(k) => Some((k, e))
      case None => FirstFinished(pats, data, e + 1)
  }

  /** No marker starts before offset `s`, and only marker `k` starts at `s`. */
  ghost predicate EarliestStart(data: seq<byte>, k: nat, s: int)
  {
    forall j, t :: 0 <= j < |CANDIDATES| && OccursAt(CANDIDATES[j].magic, data, t) ==>
      s < t || (s == t && j == k)
  }

  /**
   * For this registry the match that finishes first is also the one that
   * starts first: an occurrence that started earlier but ended no sooner
   * would contain the other marker, and no marker contains another.
   */
  lemma {:induction false} FirstFinishedIsLeftmost(data: seq<byte>, k: nat, e: nat)
    requires FirstFinished(Patterns(), data, 0) == Some((k, e))
    ensures k < |CANDIDATES| && OccursAt(CANDIDATES[k].magic, data, e - |CANDIDATES[k].magic|)
    ensures EarliestStart(data, k, e - |CANDIDATES[k].magic|)
  {
    var pats := Patterns();
    var s := e - |pats[k]|;
    RegistryMarkersDisjoint();
    forall j, t | 0 <= j < |CANDIDATES| && OccursAt(CANDIDATES[j].magic, data, t)
      ensures s < t || (s == t && j == k)
    {
      var f := t + |pats[j]|;
      assert EndsAt(pats[j], data, f);
      assert e <= f;
      if j != k && t <= s {
        OccursWithin(pats[k], s, pats[j], t, data);
        assert false;
      }
    }
  }

  /** No pattern ends anywhere exactly when no pattern occurs anywhere. */
  lemma NoEndMeansNoOccurrence(data: seq<byte>)
    requires FirstFinished(Patterns(), data, 0).None?
    ensures forall j, t :: 0 <= j < |CANDIDATES| ==> !OccursAt(CANDIDATES[j].magic, data, t)
  {
    var pats := Patterns();
    forall j, t | 0 <= j < |CANDIDATES| ensures !OccursAt(CANDIDATES[j].magic, data, t) {
      if OccursAt(CANDIDATES[j].magic, data, t) {
        assert EndsAt(pats[j], data, t + |pats[j]|);
        assert false;
      }
    }
  }

  datatype ScanError = OpenFailed(filepath: string)

  /**
   * `find_candidate`: a file that cannot be opened is an error; otherwise
   * the result is the candidate whose marker starts first in the file, or
   * nothing when no marker occurs. `file` is `None` when the file cannot be
   * opened and its bytes otherwise.
   */
  function FindCandidate(filepath: string, file: Option<seq<byte>>): (r: Result<Option<Candidate>, ScanError>)
    ensures file.None? <==> r.Err?
    ensures file.None? ==> r.error == OpenFailed(filepath)
    ensures file.Some? ==> (r.value.None? <==>
      forall j, t :: 0 <= j < |CANDIDATES| ==> !OccursAt(CANDIDATES[j].magic, file.value, t))
    ensures r.Ok? && r.value.Some? ==> exists k, s ::
      0 <= k < |CANDIDATES| && r.value.value == CANDIDATES[k] &&
      OccursAt(CANDIDATES[k].magic, file.value, s) && EarliestStart(file.value, k, s)
  {
    match file
    case None => Err(OpenFailed(filepath))
    case Some(data) =>
      match FirstFinished(Patterns(), data, 0)
      case None =>
        NoEndMeansNoOccurrence(data);
        Ok(None)
      case Some((k, e)) =>
        FirstFinishedIsLeftmost(data, k, e);
        Ok(Some(CANDIDATES[k]))
  }

  /**
   * The marker at the lowest offset decides: when marker `i` starts at `o`
   * and no marker starts before `o`, the result is `CANDIDATES[i]`, whatever
   * other markers occur later in the file.
   */
  lemma LowestOffsetWins(filepath: string, data: seq<byte>, i: nat, o: int)
    requires i < |CANDIDATES| && OccursAt(CANDIDATES[i].magic, data, o)
    requires forall j, t :: 0 <= j < |CANDIDATES| && OccursAt(CANDIDATES[j].magic, data, t) ==> o <= t
    ensures FindCandidate(filepath, Some(data)) == Ok(Some(CANDIDATES[i]))
  {
    var r := FindCandidate(filepath, Some(data));
    assert r.value.Some?;
    var k, s :| 0 <= k < |CANDIDATES| && r.value.value == CANDIDATES[k] &&
      OccursAt(CANDIDATES[k].magic, data, s) && EarliestStart(data, k, s);
    assert s <= o;
  }

  /** What `Path::exists` and `Path::is_file` report for the target. */
  datatype TargetKind = Missing | NotRegular | Regular

  datatype CommandError =
    | FileNotFound(filepath: string)
    | NoAddresses
    | BinaryNotFound(binary: string)
    | ExecFailed(reason: string)

  /** A completed run: the banner printed, the command run and the output relayed. */
  datatype Execution = Execution(banner: string, program: string, argv: seq<string>, stdout: seq<byte>)

  /**
   * The program run: under DEVKITPRO, `DEVKITPRO/search_path/binary`;
   * without it, the bare binary name for a search of PATH.
   */
  function BinaryName(c: Candidate, devkitPro: Option<string>): string
  {
    match devkitPro
    case Some(root) => Paths.Join(Paths.Join(root, c.searchPath), c.binary)
    case None => c.binary
  }

  /** The argument vector: each extra argument on its own, then `-e`, the file, the addresses in order. */
  function Argv(c: Candidate, filepath: string, addresses: seq<string>): seq<string>
  {
    ["-aipfCe"] + c.args + ["-e", filepath] + addresses
  }

  /**
   * The promise of `command`, checks in order: a target that is not a
   * regular file, then an empty address list, then a binary `which` does not
   * find, each ends the call before anything later is looked at; only then
   * is the program spawned, and a spawn failure is an error.
   */
  ghost predicate Invoked(c: Candidate, filepath: string, target: TargetKind, addresses: seq<string>,
                          devkitPro: Option<string>, executables: set<string>,
                          spawn: Process.SpawnResult, r: Result<Execution, CommandError>)
  {
    if target != Regular then r == Err(FileNotFound(filepath))
    else if addresses == [] then r == Err(NoAddresses)
    else if BinaryName(c, devkitPro) !in executables then r == Err(BinaryNotFound(c.binary))
    else match spawn
      case Err(reason) => r == Err(ExecFailed(reason))
      case Ok(out) =>
        r == Ok(Execution("[" + c.device + ": " + c.binary + "]", BinaryName(c, devkitPro),
                          Argv(c, filepath, addresses), out))
  }

  /**
   * `Candidate::command`. The target's kind, the environment value, the set
   * of paths `which` accepts and the result of spawning are inputs.
   */
  method Command(c: Candidate, filepath: string, target: TargetKind, addresses: seq<string>,
                 devkitPro: Option<string>, executables: set<string>,
                 spawn: Process.SpawnResult) returns (r: Result<Execution, CommandError>)
    ensures Invoked(c, filepath, target, addresses, devkitPro, executables, spawn, r)
  {
    if target != Regular {
      return Err(FileNotFound(filepath));
    }
    if addresses == [] {
      return Err(NoAddresses);
    }
    var binaryName := BinaryName(c, devkitPro);
    if binaryName !in executables {
      return Err(BinaryNotFound(c.binary));
    }
    var banner := "[" + c.device + ": " + c.binary + "]";
    var command := new Process.Command(binaryName);
    command.Arg("-aipfCe");
    command.Args(c.args);
    command.Arg("-e");
    command.Arg(filepath);
    ghost var fixed := ["-aipfCe"] + c.args + ["-e", filepath];
    for i := 0 to |addresses|
      invariant command.program == binaryName
      invariant command.args == fixed + addresses[..i]
    {
      command.Arg(addresses[i]);
      assert addresses[..i + 1] == addresses[..i] + [addresses[i]];
    }
    assert addresses[..|addresses|] == addresses;
    match spawn {
      case Err(reason) =>
        return Err(ExecFailed(reason));
      case Ok(out) =>
        return Ok(Execution(banner, command.program, command.args, out));
    }
  }

  /**
   * Nothing is spawned before the checks pass: when the target, the address
   * list or the binary lookup fails, the outcome is the same whatever
   * spawning would have done.
   */
  lemma EarlyFailuresSpawnNothing(c: Candidate, filepath: string, target: TargetKind, addresses: seq<string>,
                                  devkitPro: Option<string>, executables: set<string>,
                                  spawn1: Process.SpawnResult, r1: Result<Execution, CommandError>,
                                  spawn2: Process.SpawnResult, r2: Result<Execution, CommandError>)
    requires target != Regular || addresses == [] || BinaryName(c, devkitPro) !in executables
    requires Invoked(c, filepath, target, addresses, devkitPro, executables, spawn1, r1)
    requires Invoked(c, filepath, target, addresses, devkitPro, executables, spawn2, r2)
    ensures r1 == r2 && r1.Err? && !r1.error.ExecFailed?
  {
  }

  /** The registry's argument vectors: Switch and Wii U pass an empty string as an argument of its own. */
  lemma RegistryArgv(filepath: string, addresses: seq<string>)
    ensures Argv(CANDIDATES[0], filepath, addresses) == ["-aipfCe", "arm", "-e", filepath] + addresses
    ensures Argv(CANDIDATES[1], filepath, addresses) == ["-aipfCe", "", "-e", filepath] + addresses
    ensures Argv(CANDIDATES[2], filepath, addresses) == ["-aipfCe", "", "-e", filepath] + addresses
  {
  }

  /**
   * The live launcher and the legacy one agree for every registry entry: the
   * same binary, marker and search path; the same program path under
   * DEVKITPRO; and, since every entry has exactly one extra argument, the
   * same argument vector.
   */
  lemma AgreesWithLegacy(k: nat, root: string, filepath: string, addresses: seq<string>)
    requires k < |CANDIDATES|
    ensures |LegacyAddr2line.CANDIDATES| == |CANDIDATES|
    ensures var c, l := CANDIDATES[k], LegacyAddr2line.CANDIDATES[k];
      && c.binary == l.binary && c.magic == l.magic && c.searchPath == l.searchPath
      && BinaryName(c, Some(root)) == Paths.Join(root, Paths.Join(l.searchPath, l.binary))
      && Argv(c, filepath, addresses) == ["-aipfCe", LegacyAddr2line.JoinWith(l.args, " "), "-e", filepath] + addresses
  {
    var c, l := CANDIDATES[k], LegacyAddr2line.CANDIDATES[k];
    assert |c.args| == 1 && c.args == l.args;
    assert c.searchPath[0] != '/' && c.searchPath[|c.searchPath| - 1] != '/';
    assert c.binary[0] != '/';
    Paths.JoinNested(root, c.searchPath, c.binary);
  }

  datatype DebugError = ScanFailed(scan: ScanError) | LaunchFailed(launch: CommandError)

  /**
   * The `debug addr2line` command: find the toolchain, and when there is
   * one, run it; no toolchain is a success with nothing run.
   */
  method Addr2line(filepath: string, file: Option<seq<byte>>, target: TargetKind, addresses: seq<string>,
                   devkitPro: Option<string>, executables: set<string>,
                   spawn: Process.SpawnResult) returns (r: Result<Option<Execution>, DebugError>)
    ensures file.None? ==> r == Err(ScanFailed(OpenFailed(filepath)))
    ensures FindCandidate(filepath, file) == Ok(None) ==> r == Ok(None)
    ensures FindCandidate(filepath, file).Ok? && FindCandidate(filepath, file).value.Some? ==>
      exists launched: Result<Execution, CommandError> ::
        && Invoked(FindCandidate(filepath, file).value.value, filepath, target, addresses,
                   devkitPro, executables, spawn, launched)
        && r == (match launched
                 case Ok(e) => Ok(Some(e))
                 case Err(e) => Err(LaunchFailed(e)))
  {
    var found := FindCandidate(filepath, file);
    if found.Err? {
      return Err(ScanFailed(found.error));
    }
    if found.value.None? {
      return Ok(None);
    }
    var launched := Command(found.value.value, filepath, target, addresses, devkitPro, executables, spawn);
    match launched {
      case Ok(e) => r := Ok(Some(e));
      case Err(e) => r := Err(LaunchFailed(e));
    }
  }
}

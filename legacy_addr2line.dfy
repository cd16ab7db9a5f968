/**
 * The chunked marker scanner and addr2line launcher of `src/addr2line.rs`.
 * The file is no longer declared as a module of the binary crate, but its
 * scanner is the one place where the search over a stream is written out
 * by hand: the file is read 8 KiB at a time, and the last `len(magic) - 1`
 * bytes seen are carried over so that a marker split by a read boundary is
 * still found.
 */
module LegacyAddr2line {
  import opened Wrappers
  import opened Bytes
  import Paths
  import Process

  /** Size of the read buffer. */
  const CHUNK: nat := 8 * 1024

  /** A toolchain: its addr2line binary, its marker, its extra arguments, where it lives under DEVKITPRO. */
  datatype Candidate = Candidate(binary: string, magic: seq<byte>, args: seq<string>, searchPath: string)

  /** The registry, in table order. */
  const CANDIDATES: seq<Candidate> := [
    Candidate("arm-none-eabi-addr2line", Ascii("3dsx_crt0.o"), ["arm"], "devkitARM/bin"),
    Candidate("aarch64-none-elf-addr2line", Ascii("switch_crt0.o"), [""], "devkitA64/bin"),
    Candidate("powerpc-eabi-addr2line", Ascii("crt0_rpx.o"), [""], "devkitPPC/bin")
  ]

  /**
   * One call of `read` on the opened file: `Chunk(b)` delivered the bytes `b`
   * (`Chunk([])` is `Ok(0)`, the end of the file); `ReadFailed` is an `Err`.
   */
  datatype ReadOutcome = Chunk(bytes: seq<byte>) | ReadFailed

  /**
   * What the scanner sees of a file: `None` when `File::open` fails, otherwise
   * the outcomes of its successive reads, after which the file is at its end.
   */
  type FileReads = Option<seq<ReadOutcome>>

  /** A read never delivers more bytes than the buffer holds. */
  predicate FitsBuffer(outcomes: seq<ReadOutcome>)
  {
    forall k :: 0 <= k < |outcomes| && outcomes[k].Chunk? ==> |outcomes[k].bytes| <= CHUNK
  }

  /** The bytes delivered before the first end-of-file or read error. */
  function Delivered(outcomes: seq<ReadOutcome>): seq<byte>
  {
    if outcomes == [] || outcomes[0].ReadFailed? || outcomes[0].bytes == [] then []
    else outcomes[0].bytes + Delivered(outcomes[1..])
  }

  /** Unfolds `Delivered` at position `i`. */
  lemma DeliveredAt(outcomes: seq<ReadOutcome>, i: nat)
    requires i < |outcomes|
    ensures Delivered(outcomes[i..]) ==
      if outcomes[i].ReadFailed? || outcomes[i].bytes == [] then []
      else outcomes[i].bytes + Delivered(outcomes[i + 1..])
  {
    assert outcomes[i..][0] == outcomes[i] && outcomes[i..][1..] == outcomes[i + 1..];
  }

  /** The verdict `matches` must reach for a candidate and a file. */
  predicate Detected(c: Candidate, file: FileReads)
  {
    c.magic != [] && file.Some? && Occurs(c.magic, Delivered(file.value))
  }

  /** The last `min(keep, |s|)` elements of `s`. */
  function Tail(s: seq<byte>, keep: nat): (t: seq<byte>)
    ensures |t| == if keep < |s| then keep else |s|
  {
    if keep < |s| then s[|s| - keep..] else s
  }

  /**
   * The carried-over bytes suffice: when `magic` does not occur in what has
   * been consumed, it occurs in the consumed bytes followed by a new chunk
   * exactly when it occurs in the last `|magic| - 1` consumed bytes followed
   * by that chunk.
   */
  lemma {:induction false} OverlapSuffices(magic: seq<byte>, consumed: seq<byte>, chunk: seq<byte>)
    requires magic != []
    requires !Occurs(magic, consumed)
    ensures Occurs(magic, Tail(consumed, |magic| - 1) + chunk) <==> Occurs(magic, consumed + chunk)
  {
    var t := Tail(consumed, |magic| - 1);
    var d := |consumed| - |t|;
    var whole := consumed + chunk;
    assert whole[d..] == t + chunk;
    if Occurs(magic, t + chunk) {
      assert whole[d..|whole|] == t + chunk;
      OccursInSlice(magic, whole, d, |whole|);
    }
    if Occurs(magic, whole) {
      var i :| 0 <= i <= |whole| - |magic| && OccursAt(magic, whole, i);
      if i + |magic| <= |consumed| {
        assert consumed[i..i + |magic|] == whole[i..i + |magic|];
        assert OccursAt(magic, consumed, i);
        assert false;
      }
      assert (t + chunk)[i - d..i - d + |magic|] == whole[i..i + |magic|];
      assert OccursAt(magic, t + chunk, i - d);
    }
  }

  /** The overlap rebuilt from the window is the tail of everything consumed so far. */
  lemma NextOverlap(consumed: seq<byte>, chunk: seq<byte>, keep: nat, next: seq<byte>)
    requires chunk != []
    requires var window := Tail(consumed, keep) + chunk;
      next == if keep > 0 && |window| >= keep then window[|window| - keep..]
              else if |window| < keep then window
              else []
    ensures next == Tail(consumed + chunk, keep)
  {
    var window := Tail(consumed, keep) + chunk;
    var whole := consumed + chunk;
    var d := |consumed| - |Tail(consumed, keep)|;
    assert whole[d..] == window;
    if keep > 0 && |window| >= keep {
      assert window[|window| - keep..] == whole[|whole| - keep..];
    }
  }

  /**
   * One turn of the scan loop on a non-empty chunk: a hit in the window is a
   * hit in the delivered bytes; a miss extends the consumed prefix with no
   * occurrence, and the next overlap is its tail.
   */
  lemma ScanStep(magic: seq<byte>, outcomes: seq<ReadOutcome>, next: nat, consumed: seq<byte>, overlap: seq<byte>)
    requires magic != []
    requires next < |outcomes| && outcomes[next].Chunk? && outcomes[next].bytes != []
    requires Delivered(outcomes) == consumed + Delivered(outcomes[next..])
    requires !Occurs(magic, consumed)
    requires overlap == Tail(consumed, |magic| - 1)
    ensures var bytes := outcomes[next].bytes;
      && Delivered(outcomes) == (consumed + bytes) + Delivered(outcomes[next + 1..])
      && (Occurs(magic, overlap + bytes) ==> Occurs(magic, Delivered(outcomes)))
      && (!Occurs(magic, overlap + bytes) ==> !Occurs(magic, consumed + bytes))
  {
    var bytes := outcomes[next].bytes;
    DeliveredAt(outcomes, next);
    assert Delivered(outcomes) == (consumed + bytes) + Delivered(outcomes[next + 1..]);
    OverlapSuffices(magic, consumed, bytes);
    if Occurs(magic, overlap + bytes) {
      OccursInPrefix(magic, consumed + bytes, Delivered(outcomes[next + 1..]));
    }
  }

  /** Copies one read's bytes into the front of the buffer, as `read(&mut buffer)` does. */
  method ReadInto(buffer: array<byte>, bytes: seq<byte>) returns (n: nat)
    requires |bytes| <= buffer.Length
    modifies buffer
    ensures n == |bytes| && buffer[..n] == bytes
  {
    n := |bytes|;
    for i := 0 to n
      invariant buffer[..i] == bytes[..i]
    {
      buffer[i] := bytes[i];
      assert buffer[..i + 1] == buffer[..i] + [bytes[i]];
      assert bytes[..i + 1] == bytes[..i] + [bytes[i]];
    }
  }

  /** `window.windows(magic.len()).any(|w| w == magic)`. */
  method AnyWindow(window: seq<byte>, magic: seq<byte>) returns (any: bool)
    requires magic != []
    ensures any <==> Occurs(magic, window)
  {
    var i := 0;
    while i + |magic| <= |window|
      invariant 0 <= i
      invariant forall j :: 0 <= j < i ==> !OccursAt(magic, window, j)
    {
      if window[i..i + |magic|] == magic {
        assert OccursAt(magic, window, i);
        return true;
      }
      i := i + 1;
    }
    return false;
  }

  /**
   * `Candidate::matches`: true exactly when the candidate's marker is
   * non-empty, the file opens, and the marker occurs in the bytes read before
   * the end of the file or the first read error, however the reads split them.
   */
  method Matches(c: Candidate, file: FileReads) returns (found: bool)
    requires file.Some? ==> FitsBuffer(file.value)
    ensures found <==> Detected(c, file)
  {
    if c.magic == [] {
      return false;
    }
    if file.None? {
      return false;
    }
    var outcomes := file.value;
    var buffer := new byte[CHUNK];
    var overlap: seq<byte> := [];
    var keep := |c.magic| - 1;
    var next := 0;
    ghost var consumed: seq<byte> := [];
    while next < |outcomes|
      invariant 0 <= next <= |outcomes|
      invariant Delivered(outcomes) == consumed + Delivered(outcomes[next..])
      invariant !Occurs(c.magic, consumed)
      invariant overlap == Tail(consumed, keep)
    {
      var bytes;
      match outcomes[next] {
        case ReadFailed =>
          DeliveredAt(outcomes, next);
          assert Delivered(outcomes) == consumed + [] == consumed;
          return false;
        case Chunk(b) =>
          bytes := b;
      }
      var n := ReadInto(buffer, bytes);
      if n == 0 {
        DeliveredAt(outcomes, next);
        assert Delivered(outcomes) == consumed + [] == consumed;
        break;
      }
      var window := overlap + buffer[..n];
      ScanStep(c.magic, outcomes, next, consumed, overlap);
      var any := AnyWindow(window, c.magic);
      if any {
        return true;
      }
      overlap := [];
      var total := |window|;
      if keep > 0 && total >= keep {
        overlap := overlap + window[total - keep..];
      } else if total < keep {
        overlap := overlap + window;
      }
      NextOverlap(consumed, bytes, keep, overlap);
      consumed := consumed + bytes;
      next := next + 1;
    }
    if next == |outcomes| {
      assert outcomes[next..] == [];
      assert Delivered(outcomes) == consumed + [] == consumed;
    }
    return false;
  }

  /** `[&str]::join(sep)`. */
  function JoinWith(xs: seq<string>, sep: string): string
  {
    if xs == [] then ""
    else if |xs| == 1 then xs[0]
    else xs[0] + sep + JoinWith(xs[1..], sep)
  }

  /** What `command` does, as it can be observed. */
  datatype Outcome =
    | DevkitProUnset                  // reported, nothing built or run
    | NotFound(path: string)          // `which` rejected the path; nothing run
    | Executed(program: string, argv: seq<string>, spawn: Process.SpawnResult)

  /**
   * The promise of `command`: without DEVKITPRO it stops at once; otherwise
   * the binary is `DEVKITPRO` joined with `search_path/binary`, which must be
   * found by `which` before anything runs; then the program runs with
   * `-aipfCe`, the extra arguments joined by spaces into ONE argument, `-e`,
   * the file and the addresses in the caller's order.
   */
  ghost predicate Invoked(c: Candidate, filepath: string, addresses: seq<string>,
                          devkitPro: Option<string>, executables: set<string>,
                          spawn: Process.SpawnResult, r: Outcome)
  {
    match devkitPro
    case None => r == DevkitProUnset
    case Some(root) =>
      var path := Paths.Join(root, Paths.Join(c.searchPath, c.binary));
      if path !in executables then r == NotFound(path)
      else r == Executed(path, ["-aipfCe", JoinWith(c.args, " "), "-e", filepath] + addresses, spawn)
  }

  /**
   * `Candidate::command`. The environment value, the set of paths `which`
   * accepts and the result of spawning are inputs.
   */
  method Command(c: Candidate, filepath: string, addresses: seq<string>,
                 devkitPro: Option<string>, executables: set<string>,
                 spawn: Process.SpawnResult) returns (r: Outcome)
    ensures Invoked(c, filepath, addresses, devkitPro, executables, spawn, r)
  {
    if devkitPro.None? {
      return DevkitProUnset;
    }
    var binaryPath := Paths.Join(devkitPro.value, Paths.Join(c.searchPath, c.binary));
    if binaryPath !in executables {
      return NotFound(binaryPath);
    }
    var command := new Process.Command(binaryPath);
    command.Arg("-aipfCe");
    command.Arg(JoinWith(c.args, " "));
    command.Arg("-e");
    command.Arg(filepath);
    ghost var fixed := ["-aipfCe", JoinWith(c.args, " "), "-e", filepath];
    for i := 0 to |addresses|
      invariant command.program == binaryPath
      invariant command.args == fixed + addresses[..i]
    {
      command.Arg(addresses[i]);
      assert addresses[..i + 1] == addresses[..i] + [addresses[i]];
    }
    assert addresses[..|addresses|] == addresses;
    r := Executed(command.program, command.args, spawn);
  }

  /** What `run` does: reports that no toolchain fits, or runs the first one that does. */
  datatype RunOutcome = NoSuitable(filepath: string) | Dispatched(index: nat, outcome: Outcome)

  /**
   * `run`: the first registry entry, in table order, whose marker is found
   * anywhere in the file is the one invoked (not the one whose marker comes
   * first in the file); when none is found only a message is printed.
   * Every candidate re-opens the same file and sees the same reads.
   */
  method Run(filepath: string, file: FileReads, addresses: seq<string>,
             devkitPro: Option<string>, executables: set<string>,
             spawn: Process.SpawnResult) returns (r: RunOutcome)
    requires file.Some? ==> FitsBuffer(file.value)
    ensures r.NoSuitable? <==> forall k :: 0 <= k < |CANDIDATES| ==> !Detected(CANDIDATES[k], file)
    ensures r.NoSuitable? ==> r.filepath == filepath
    ensures r.Dispatched? ==>
      && r.index < |CANDIDATES|
      && Detected(CANDIDATES[r.index], file)
      && (forall k :: 0 <= k < r.index ==> !Detected(CANDIDATES[k], file))
      && Invoked(CANDIDATES[r.index], filepath, addresses, devkitPro, executables, spawn, r.outcome)
  {
    var k := 0;
    while k < |CANDIDATES|
      invariant 0 <= k <= |CANDIDATES|
      invariant forall j :: 0 <= j < k ==> !Detected(CANDIDATES[j], file)
    {
      var found := Matches(CANDIDATES[k], file);
      if found {
        var outcome := Command(CANDIDATES[k], filepath, addresses, devkitPro, executables, spawn);
        return Dispatched(k, outcome);
      }
      k := k + 1;
    }
    return NoSuitable(filepath);
  }

  /** The reads of a file delivered in the given non-empty chunks and then ended. */
  function ChunkReads(chunks: seq<seq<byte>>): seq<ReadOutcome>
  {
    seq(|chunks|, i requires 0 <= i < |chunks| => Chunk(chunks[i])) + [Chunk([])]
  }

  function Concat(chunks: seq<seq<byte>>): seq<byte>
  {
    if chunks == [] then [] else chunks[0] + Concat(chunks[1..])
  }

  /**
   * Without read errors, what the scanner sees is the whole file, whichever
   * way the reads split it: so `matches` decides `Occurs(magic, file)` for
   * every split.
   */
  lemma {:induction false} ChunkReadsDeliverAll(chunks: seq<seq<byte>>)
    requires forall i :: 0 <= i < |chunks| ==> chunks[i] != []
    ensures Delivered(ChunkReads(chunks)) == Concat(chunks)
    decreases |chunks|
  {
    var outcomes := ChunkReads(chunks);
    if chunks == [] {
      assert outcomes == [Chunk([])];
    } else {
      assert outcomes[0] == Chunk(chunks[0]);
      assert outcomes[1..] == ChunkReads(chunks[1..]);
      ChunkReadsDeliverAll(chunks[1..]);
    }
  }

  /**
   * A marker cut in two by a read boundary, its first `k` bytes ending one
   * read and the rest starting the next, is still detected.
   */
  lemma StraddlingMarkerDetected(c: Candidate, before: seq<byte>, after: seq<byte>, k: nat)
    requires 0 < k < |c.magic|
    ensures Detected(c, Some([Chunk(before + c.magic[..k]), Chunk(c.magic[k..] + after), Chunk([])]))
  {
    var outcomes := [Chunk(before + c.magic[..k]), Chunk(c.magic[k..] + after), Chunk([])];
    var second := outcomes[1..];
    assert second[1..] == [Chunk([])];
    assert Delivered(second[1..]) == [];
    assert Delivered(second) == c.magic[k..] + after;
    var data := Delivered(outcomes);
    assert data == (before + c.magic[..k]) + (c.magic[k..] + after);
    assert data[|before|..|before| + |c.magic|] == c.magic;
    assert OccursAt(c.magic, data, |before|);
  }

  /** Every registry marker is non-empty, so `matches` always scans. */
  lemma RegistryMarkersNonEmpty()
    ensures forall k :: 0 <= k < |CANDIDATES| ==> CANDIDATES[k].magic != []
  {
  }
}

/** logRotator of internal/mcp/tools.go: the live log file and its numbered backups. */
module LogRotator {
  import opened Bytes

  /** File 0 is the live path, file k its backup ".k"; a missing file has no entry. */
  type Files = map<nat, Str>

  function Content(files: Files, k: nat): Str {
    if k in files then files[k] else []
  }

  /** The backups from the oldest to the newest, then the live file. */
  function Chain(files: Files, n: nat): Str {
    if n == 0 then Content(files, 0) else Content(files, n) + Chain(files, n - 1)
  }

  /** os.Rename between two paths: replaces the target; without a source it fails and changes nothing. */
  function Rename(files: Files, from: nat, to: nat): Files
    requires from != to
  {
    if from in files then files[to := files[from]] - {from} else files
  }

  /** The renames of rotate, from backup `i` down: i-1 becomes i, ..., 1 becomes 2, the live file becomes 1. */
  function Shift(files: Files, i: nat): Files
    requires 1 <= i
    decreases i
  {
    if i == 1 then Rename(files, 0, 1) else Shift(Rename(files, i - 1, i), i - 1)
  }

  /** What a rotation throws away: the oldest backup, if something takes its place. */
  function Dropped(files: Files, n: nat): Str
    requires 1 <= n
  {
    if n - 1 in files then Content(files, n) else []
  }

  predicate IsSuffix(a: Str, b: Str) {
    |a| <= |b| && a == b[|b| - |a|..]
  }

  lemma ChainUntouched(files: Files, other: Files, n: nat)
    requires forall k: nat :: k <= n ==> Content(files, k) == Content(other, k)
    ensures Chain(files, n) == Chain(other, n)
  {}

  /** Moving a file into a free neighbouring place leaves the chain as it is. */
  lemma {:induction false} RenameIntoGap(files: Files, i: nat, n: nat)
    requires 1 <= i <= n && i !in files
    ensures Chain(Rename(files, i - 1, i), n) == Chain(files, n)
  {
    var moved := Rename(files, i - 1, i);
    if i == n {
      assert Content(files, n) == [] && Content(moved, n) == Content(files, n - 1) && Content(moved, n - 1) == [];
      if n > 1 {
        ChainUntouched(files, moved, n - 2);
      }
    } else {
      RenameIntoGap(files, i, n - 1);
    }
  }

  lemma {:induction false} ShiftIntoGap(files: Files, i: nat, n: nat)
    requires 1 <= i <= n && i !in files
    ensures Chain(Shift(files, i), n) == Chain(files, n)
    ensures 0 !in Shift(files, i)
    decreases i
  {
    RenameIntoGap(files, i, n);
    if i > 1 {
      ShiftIntoGap(Rename(files, i - 1, i), i - 1, n);
    }
  }

  /** A rotation conserves the chain except for the oldest backup it replaces, and frees the live path. */
  lemma RotationConserves(files: Files, n: nat)
    requires 1 <= n
    ensures Chain(files, n) == Dropped(files, n) + Chain(Shift(files, n), n)
    ensures 0 !in Shift(files, n)
  {
    if n - 1 in files {
      var cleared := files - {n};
      assert Rename(cleared, n - 1, n) == Rename(files, n - 1, n);
      assert Shift(cleared, n) == Shift(files, n);
      ShiftIntoGap(cleared, n, n);
      ChainUntouched(files, cleared, n - 1);
      assert Chain(files, n) == Content(files, n) + Chain(cleared, n - 1);
      assert Chain(cleared, n) == [] + Chain(cleared, n - 1) == Chain(cleared, n - 1);
    } else if n > 1 {
      assert Shift(files, n) == Shift(files, n - 1);
      ShiftIntoGap(files, n - 1, n);
      assert [] + Chain(files, n) == Chain(files, n);
    }
  }

  // ---- Writes ----

  /** `log` is everything ever written to the log, what was there at the start included. */
  datatype State = State(files: Files, open: bool, size: int, log: Str)

  /** One Write call: whether a rotation's re-open succeeds, and how many bytes the file accepts. */
  datatype Op = Op(p: Str, openOk: bool, accepted: nat)

  predicate Rotates(s: State, maxSize: int, op: Op) {
    maxSize > 0 && s.size + |op.p| > maxSize
  }

  /** The state after rotate(). */
  function Rotated(s: State, maxFiles: nat, openOk: bool): State
    requires 1 <= maxFiles
  {
    var shifted := Shift(s.files, maxFiles);
    if openOk then s.(files := shifted[0 := []], open := true, size := 0) else s.(files := shifted, open := false)
  }

  function Put(s: State, op: Op): State {
    var n := if op.accepted < |op.p| then op.accepted else |op.p|;
    if !s.open then s
    else s.(files := s.files[0 := Content(s.files, 0) + op.p[..n]], size := s.size + n, log := s.log + op.p[..n])
  }

  function Next(s: State, maxSize: int, maxFiles: nat, op: Op): State
    requires 1 <= maxFiles
  {
    Put(if Rotates(s, maxSize, op) then Rotated(s, maxFiles, op.openOk) else s, op)
  }

  function Run(s: State, maxSize: int, maxFiles: nat, ops: seq<Op>): State
    requires 1 <= maxFiles
  {
    if ops == [] then s else Next(Run(s, maxSize, maxFiles, ops[..|ops| - 1]), maxSize, maxFiles, ops[|ops| - 1])
  }

  ghost predicate Valid(s: State, maxFiles: nat) {
    && IsSuffix(Chain(s.files, maxFiles), s.log)
    && (s.open ==> 0 in s.files)
    && (0 in s.files ==> s.size == |s.files[0]|)
  }

  lemma SuffixOfSuffix(a: Str, b: Str, c: Str)
    requires IsSuffix(a + b, c)
    ensures IsSuffix(b, c)
  {
    var tail := c[|c| - |a + b|..];
    assert b == tail[|a|..] == c[|c| - |b|..];
  }

  lemma RotatedKeepsValid(s: State, maxFiles: nat, openOk: bool)
    requires 1 <= maxFiles && Valid(s, maxFiles)
    ensures Valid(Rotated(s, maxFiles, openOk), maxFiles)
    ensures Chain(s.files, maxFiles) == Dropped(s.files, maxFiles) + Chain(Rotated(s, maxFiles, openOk).files, maxFiles)
  {
    RotationConserves(s.files, maxFiles);
    var shifted := Shift(s.files, maxFiles);
    ChainUntouched(shifted, shifted[0 := []], maxFiles);
    SuffixOfSuffix(Dropped(s.files, maxFiles), Chain(shifted, maxFiles), s.log);
  }

  lemma {:induction false} ChainAppends(files: Files, p: Str, n: nat)
    ensures Chain(files[0 := Content(files, 0) + p], n) == Chain(files, n) + p
  {
    if n > 0 {
      ChainAppends(files, p, n - 1);
      var after := files[0 := Content(files, 0) + p];
      assert Content(after, n) == Content(files, n);
      assert Content(files, n) + (Chain(files, n - 1) + p) == Content(files, n) + Chain(files, n - 1) + p;
    }
  }

  lemma SuffixAppends(a: Str, b: Str, p: Str)
    requires IsSuffix(a, b)
    ensures IsSuffix(a + p, b + p)
  {
    assert (b + p)[|b| - |a|..] == b[|b| - |a|..] + p;
  }

  lemma PutKeepsValid(s: State, maxFiles: nat, op: Op)
    requires Valid(s, maxFiles)
    ensures Valid(Put(s, op), maxFiles)
  {
    var n := if op.accepted < |op.p| then op.accepted else |op.p|;
    ChainAppends(s.files, op.p[..n], maxFiles);
    SuffixAppends(Chain(s.files, maxFiles), s.log, op.p[..n]);
  }

  /** After any writes, rotations and failed re-opens the backups and the live file together are a suffix of everything
      ever in the log, and `size` is the length of the live file whenever there is one. */
  lemma {:induction false} RunsKeepASuffix(s: State, maxSize: int, maxFiles: nat, ops: seq<Op>)
    requires 1 <= maxFiles && Valid(s, maxFiles)
    ensures Valid(Run(s, maxSize, maxFiles, ops), maxFiles)
  {
    if ops != [] {
      RunsKeepASuffix(s, maxSize, maxFiles, ops[..|ops| - 1]);
      var before, op := Run(s, maxSize, maxFiles, ops[..|ops| - 1]), ops[|ops| - 1];
      if Rotates(before, maxSize, op) {
        RotatedKeepsValid(before, maxFiles, op.openOk);
        PutKeepsValid(Rotated(before, maxFiles, op.openOk), maxFiles, op);
      } else {
        PutKeepsValid(before, maxFiles, op);
      }
    }
  }

  /** Only a rotation loses anything, and then exactly the oldest backup: the chain after a write is the chain before,
      without that, followed by the bytes accepted. */
  lemma WriteLosesOnlyTheOldest(s: State, maxSize: int, maxFiles: nat, op: Op)
    requires 1 <= maxFiles && Valid(s, maxFiles)
    ensures var s' := Next(s, maxSize, maxFiles, op);
            var lost := if Rotates(s, maxSize, op) then Dropped(s.files, maxFiles) else [];
            Chain(s.files, maxFiles) + s'.log[|s.log|..] == lost + Chain(s'.files, maxFiles)
  {
    if Rotates(s, maxSize, op) {
      var mid := Rotated(s, maxFiles, op.openOk);
      RotatedKeepsValid(s, maxFiles, op.openOk);
      PutAppends(mid, maxFiles, op);
      Associates(Dropped(s.files, maxFiles), Chain(mid.files, maxFiles), Put(mid, op).log[|s.log|..]);
    } else {
      PutAppends(s, maxFiles, op);
    }
  }

  lemma Associates(a: Str, b: Str, c: Str)
    ensures a + b + c == a + (b + c)
  {}

  lemma PutAppends(s: State, maxFiles: nat, op: Op)
    ensures var more := Put(s, op).log[|s.log|..];
            Chain(Put(s, op).files, maxFiles) == Chain(s.files, maxFiles) + more
  {
    var n := if op.accepted < |op.p| then op.accepted else |op.p|;
    if s.open {
      assert (s.log + op.p[..n])[|s.log|..] == op.p[..n];
      ChainAppends(s.files, op.p[..n], maxFiles);
    }
  }

  /** In rotating mode, after a write that succeeded, the live file fits the limit or is that single write. */
  lemma LiveFileFits(s: State, maxSize: int, maxFiles: nat, op: Op)
    requires 1 <= maxFiles && Valid(s, maxFiles) && maxSize > 0
    requires Next(s, maxSize, maxFiles, op).open && |op.p| <= op.accepted
    ensures var live := Content(Next(s, maxSize, maxFiles, op).files, 0);
            |live| <= maxSize || live == op.p
  {
    if Rotates(s, maxSize, op) {
      RotatedKeepsValid(s, maxFiles, op.openOk);
    }
  }

  // ---- Which file is where ----

  /** Where each file is after the renames: backup `k` is what stood before it; the oldest stays if nothing takes its
      place; the live path is free and nothing else is touched. */
  lemma {:induction false} ShiftAt(files: Files, n: nat, k: nat)
    requires 1 <= n
    ensures 0 !in Shift(files, n)
    ensures n < k ==> (k in Shift(files, n) <==> k in files) && Content(Shift(files, n), k) == Content(files, k)
    ensures 1 <= k <= n ==>
              && (k in Shift(files, n) <==> k - 1 in files || (k == n && n in files))
              && Content(Shift(files, n), k) == Content(files, if k == n && n - 1 !in files then n else k - 1)
    decreases n
  {
    if n > 1 {
      var renamed := Rename(files, n - 1, n);
      ShiftAt(renamed, n - 1, k);
      assert n - 1 !in renamed;
    }
  }

  /** Whether a write rotates, and where everything is afterwards. Without a limit, or if the write fits it, no backup
      changes and the accepted bytes follow the live file. Otherwise every backup moves up by one, the live file
      becomes the first, and the bytes begin a new live file, if that can be opened. */
  lemma WriteMoves(s: State, maxSize: int, maxFiles: nat, op: Op, k: nat)
    requires 1 <= maxFiles && Valid(s, maxFiles)
    ensures var s' := Next(s, maxSize, maxFiles, op);
            var accepted := op.p[..if op.accepted < |op.p| then op.accepted else |op.p|];
            if maxSize <= 0 || s.size + |op.p| <= maxSize then
              && s'.open == s.open
              && (1 <= k ==> (k in s'.files <==> k in s.files) && Content(s'.files, k) == Content(s.files, k))
              && Content(s'.files, 0) == Content(s.files, 0) + (if s.open then accepted else [])
            else
              && s'.open == op.openOk
              && (maxFiles < k ==> Content(s'.files, k) == Content(s.files, k))
              && (1 <= k <= maxFiles ==>
                    Content(s'.files, k)
                    == Content(s.files, if k == maxFiles && maxFiles - 1 !in s.files then maxFiles else k - 1))
              && (0 in s'.files <==> op.openOk) && Content(s'.files, 0) == if op.openOk then accepted else []
  {
    ShiftAt(s.files, maxFiles, k);
    assert [] + op.p[..if op.accepted < |op.p| then op.accepted else |op.p|]
        == op.p[..if op.accepted < |op.p| then op.accepted else |op.p|];
  }

  // ---- The code ----

  class Rotator {
    const maxSize: int
    const maxFiles: nat
    var files: Files  // the directory
    var open: bool
    var size: int
    ghost var log: Str

    ghost function Value(): State
      reads this
    {
      State(files, open, size, log)
    }

    ghost predicate Ready()
      reads this
    {
      1 <= maxFiles && Valid(Value(), maxFiles)
    }

    /** newLogRotator on a directory with whatever backups are there; the file is opened for appending. */
    constructor (directory: Files, maxSizeMB: int, wantedFiles: int)
      ensures Ready() && open && maxSize == maxSizeMB * 1024 * 1024
      ensures maxFiles == if wantedFiles <= 0 then 3 else wantedFiles
      ensures files == directory[0 := Content(directory, 0)] && log == Chain(directory, maxFiles)
    {
      maxSize := maxSizeMB * 1024 * 1024;
      maxFiles := if wantedFiles <= 0 then 3 else wantedFiles;
      files := directory[0 := Content(directory, 0)];
      open, size := true, |Content(directory, 0)|;
      log := Chain(directory, if wantedFiles <= 0 then 3 else wantedFiles);
      new;
      ChainUntouched(directory, files, maxFiles);
    }

    method Rotate(openOk: bool)
      requires Ready()
      modifies this`files, this`open, this`size
      ensures Ready() && Value() == Rotated(old(Value()), maxFiles, openOk)
    {
      RotatedKeepsValid(Value(), maxFiles, openOk);
      var i := maxFiles;
      while i > 1
        invariant 1 <= i <= maxFiles
        invariant Shift(files, i) == Shift(old(files), maxFiles)
        invariant open == old(open) && size == old(size)
      {
        files := Rename(files, i - 1, i);
        i := i - 1;
      }
      files := Rename(files, 0, 1);
      if !openOk {
        open := false;
        return;
      }
      files := files[0 := []];
      open := true;
      size := 0;
    }

    method Write(p: Str, openOk: bool, accepted: nat) returns (n: nat, failed: bool)
      requires Ready()
      modifies this
      ensures Ready() && Value() == Next(old(Value()), maxSize, maxFiles, Op(p, openOk, accepted))
      ensures n <= |p| && (failed <==> !open || n < |p|)
      ensures log == old(log) + p[..n]
      ensures !failed && maxSize > 0 ==> |Content(files, 0)| <= maxSize || Content(files, 0) == p
    {
      ghost var op := Op(p, openOk, accepted);
      if accepted >= |p| && Next(Value(), maxSize, maxFiles, op).open && maxSize > 0 {
        LiveFileFits(Value(), maxSize, maxFiles, op);
      }
      if maxSize > 0 && size + |p| > maxSize {
        Rotate(openOk);
      }
      if !open {
        return 0, true;
      }
      PutKeepsValid(Value(), maxFiles, op);
      n := if accepted < |p| then accepted else |p|;
      files := files[0 := files[0] + p[..n]];
      log := log + p[..n];
      size := size + n;
      failed := n < |p|;
    }

    method Close()
      requires Ready()
      modifies this`open
      ensures Ready() && !open
    {
      open := false;
    }
  }
}

/**
 zlog's archive rotation on a directory: listing and sorting the archives, ROLLING and SEQUENCE
 renaming, and what any run of rotations from an empty archive directory keeps.
 */
module ZlogRotater {
  import opened Text
  import opened Digits
  import opened ZlogArrayList

  type Content = Bytes

  /** The log file itself, the names snprintf makes, and whatever else glob finds: the number sscanf
      reads from such a name, 0 if it reads none, and whether it is taken for an archive, that is
      no directory and with a number as wide as the width asks for. Several names may carry one
      number, as "aa.2" and "aa.02" do. */
  datatype Name = Base | Archive(n: nat) | Other(number: int, taken: bool, text: Bytes)

  datatype File = File(index: int, path: Name)

  function IndexOf(f: File): int { f.index }

  /** zlog_file_check_new: the base file is never in the list. */
  function CheckNew(path: Name): Option<File> {
    match path
    case Base => None
    case Archive(n) => Some(File(n, path))
    case Other(number, taken, _) => if taken then Some(File(number, path)) else None
  }

  /** In the directory, but neither the log file nor taken for an archive. */
  predicate Ignored(x: Name) { x != Base && CheckNew(x) == None }

  // ---- names ----

  /** The path snprintf builds from the parts of glob_path around the star. */
  function PathOf(n: nat, prefix: Bytes, width: nat, suffix: Bytes): Bytes {
    prefix + ZeroPadded(Radix(n, 10), width) + suffix
  }

  lemma {:induction false} LeadingZeros(k: nat, digits: Bytes)
    ensures RadixValue(Repeat(ZERO, k) + digits, 10) == RadixValue(digits, 10)
    decreases |digits|, k
  {
    var s := Repeat(ZERO, k) + digits;
    if digits != [] {
      assert s[..|s| - 1] == Repeat(ZERO, k) + digits[..|digits| - 1];
      LeadingZeros(k, digits[..|digits| - 1]);
    } else if k > 0 {
      assert s == Repeat(ZERO, k);
      RepeatSnoc(ZERO, k - 1);
      assert s[..|s| - 1] == Repeat(ZERO, k - 1) + [];
      LeadingZeros(k - 1, []);
    }
  }

  lemma {:induction false} RepeatSnoc(b: byte, k: nat)
    ensures Repeat(b, k + 1) == Repeat(b, k) + [b]
  {
  }

  /** sscanf reads the number back from where it starts, with at least `width` characters, unless
      the name goes on with a digit. */
  lemma PathReadsBack(n: nat, prefix: Bytes, width: nat, suffix: Bytes)
    requires suffix != [] ==> !IsDigit(suffix[0])
    ensures var rest := PathOf(n, prefix, width, suffix)[|prefix|..];
      DigitRun(rest) >= width && RadixValue(rest[..DigitRun(rest)], 10) == n
  {
    hide Radix, RadixValue;
    var digits := Radix(n, 10);
    var shown := ZeroPadded(digits, width);
    var rest := PathOf(n, prefix, width, suffix)[|prefix|..];
    assert rest == shown + suffix;
    RunEnds(shown, suffix);
    assert rest[..|shown|] == shown;
    if width > |digits| {
      LeadingZeros(width - |digits|, digits);
    }
    RadixDenotes(n, 10);
  }

  // ---- the directory ----

  class Directory {
    var files: map<Name, Content>
    /** Whether a rename has replaced another file. */
    ghost var clobbered: bool

    constructor ()
      ensures files == map[] && !clobbered
    {
      files := map[];
      clobbered := false;
    }

    method Rename(src: Name, dst: Name) returns (rc: int)
      modifies this
      ensures rc == if src in old(files) then 0 else -1
      ensures rc != 0 || src == dst ==> files == old(files) && clobbered == old(clobbered)
      ensures rc == 0 && src != dst ==> files == (old(files) - {src})[dst := old(files)[src]]
      ensures rc == 0 && src != dst ==> clobbered == (old(clobbered) || dst in old(files))
    {
      if src !in files {
        return -1;
      }
      if src != dst {
        clobbered := clobbered || dst in files;
        files := (files - {src})[dst := files[src]];
      }
      return 0;
    }

    method Unlink(name: Name) returns (rc: int)
      modifies this`files
      ensures rc == if name in old(files) then 0 else -1
      ensures files == old(files) - {name}
    {
      rc := if name in files then 0 else -1;
      files := files - {name};
    }
  }

  /** Archives in order of their numbers, each once. */
  predicate Ordered(s: seq<File>) {
    && (forall i | 0 <= i < |s| :: CheckNew(s[i].path) == Some(s[i]))
    && (forall i, j | 0 <= i < j < |s| :: s[i].index <= s[j].index && s[i].path != s[j].path)
  }

  /** s lists the archives of a directory with these names. */
  predicate Lists(s: seq<File>, names: set<Name>) {
    && Ordered(s)
    && (forall i | 0 <= i < |s| :: s[i].path in names)
    && (forall x | x in names && CheckNew(x) != None :: exists i | 0 <= i < |s| :: s[i].path == x)
  }

  /** How many of the listed archives rolling moves up; the rest is unlinked. */
  function Kept(count: nat, max: int): nat {
    if max > 0 && count > max - 1 then max - 1 else count
  }

  /** Rolling gives file i the name of archive i + 1; that hits another file iff an earlier one has it. */
  predicate Clash(s: seq<File>, i: nat) {
    i < |s| && exists j | 0 <= j < i :: s[j].path == Archive(i + 1)
  }

  predicate ClashFrom(s: seq<File>, i: nat, keep: nat) {
    exists k | i <= k < keep :: Clash(s, k)
  }

  /** The directory after a rolling without clash. */
  ghost predicate Rolled(now: map<Name, Content>, was: map<Name, Content>, s: seq<File>, keep: nat) {
    && keep <= |s| && Base in was && (forall i | 0 <= i < |s| :: s[i].path in was)
    && (forall x :: x in now <==> (x.Archive? && x.n <= keep) || (Ignored(x) && x in was))
    && (forall x | Ignored(x) && x in was :: now[x] == was[x])
    && now[Archive(0)] == was[Base]
    && (forall m: nat | 0 < m <= keep :: now[Archive(m)] == was[s[m - 1].path])
  }

  /** Names while rolling: the base, the files still to come, and the new numbers. */
  predicate Pending(now: map<Name, Content>, s: seq<File>, i: int, keep: nat)
    requires -1 <= i < |s|
  {
    && Base in now
    && (forall j | 0 <= j <= i :: s[j].path in now)
    && (forall x | x in now :: x == Base || Ignored(x) || Among(s, i, x) || (x.Archive? && i + 2 <= x.n <= keep))
  }

  predicate Among(s: seq<File>, i: int, x: Name)
    requires -1 <= i < |s|
  {
    exists j | 0 <= j <= i :: s[j].path == x
  }

  lemma AmongLess(s: seq<File>, i: nat, x: Name)
    requires i < |s|
    ensures Among(s, i, x) && x != s[i].path ==> Among(s, i - 1, x)
  {
  }

  /** Contents while rolling without clash. */
  ghost predicate Shifted(now: map<Name, Content>, was: map<Name, Content>, s: seq<File>, i: int, keep: nat)
    requires -1 <= i < |s| && keep <= |s| && Base in was && (forall j | 0 <= j < |s| :: s[j].path in was)
  {
    && Pending(now, s, i, keep)
    && now[Base] == was[Base]
    && (forall x | Ignored(x) :: (x in now <==> x in was) && (x in now ==> now[x] == was[x]))
    && (forall j | 0 <= j <= i :: now[s[j].path] == was[s[j].path])
    && (forall m: nat | i + 2 <= m <= keep :: Archive(m) in now && now[Archive(m)] == was[s[m - 1].path])
  }

  lemma Listed(s: seq<File>, i: nat)
    requires Ordered(s) && i < |s|
    ensures !Ignored(s[i].path) && !Ignored(Archive(i + 1)) && s[i].path != Base
  {
  }

  lemma UnlinkStep(now: map<Name, Content>, s: seq<File>, i: nat, keep: nat)
    requires Ordered(s) && i < |s| && keep <= i && Pending(now, s, i, keep)
    ensures Pending(now - {s[i].path}, s, i - 1, keep)
    ensures ClashFrom(s, i, keep) == ClashFrom(s, i + 1, keep) == false
  {
  }

  function Renamed(now: map<Name, Content>, src: Name, dst: Name): map<Name, Content>
    requires src in now
  {
    if src == dst then now else (now - {src})[dst := now[src]]
  }

  lemma RenameNames(now: map<Name, Content>, s: seq<File>, i: nat, keep: nat)
    requires Ordered(s) && i < |s| && i < keep <= |s| && Pending(now, s, i, keep)
    ensures Pending(Renamed(now, s[i].path, Archive(i + 1)), s, i - 1, keep)
  {
    hide Among;
    var t := Renamed(now, s[i].path, Archive(i + 1));
    forall j | 0 <= j <= i - 1
      ensures s[j].path in t
    {
      assert s[j].path in now && s[j].path != s[i].path;
    }
    forall x | x in t
      ensures x == Base || Ignored(x) || Among(s, i - 1, x) || (x.Archive? && i + 1 <= x.n <= keep)
    {
      AmongLess(s, i, x);
    }
  }

  lemma RenameClash(now: map<Name, Content>, s: seq<File>, i: nat, keep: nat)
    requires Ordered(s) && i < |s| && i < keep <= |s| && Pending(now, s, i, keep)
    ensures s[i].path != Archive(i + 1) ==> (Archive(i + 1) in now <==> Clash(s, i))
    ensures s[i].path == Archive(i + 1) ==> !Clash(s, i)
    ensures ClashFrom(s, i, keep) == (Clash(s, i) || ClashFrom(s, i + 1, keep))
  {
    if ClashFrom(s, i, keep) {
      var k :| i <= k < keep && Clash(s, k);
      assert k == i || k >= i + 1;
    }
  }

  lemma EarlierKept(now: map<Name, Content>, s: seq<File>, i: nat, keep: nat, j: nat)
    requires Ordered(s) && j < i < |s| && i < keep <= |s| && Pending(now, s, i, keep) && !ClashFrom(s, i, keep)
    ensures s[j].path in now && s[i].path in now && s[j].path in Renamed(now, s[i].path, Archive(i + 1))
    ensures Renamed(now, s[i].path, Archive(i + 1))[s[j].path] == now[s[j].path]
  {
    assert !Clash(s, i);
    assert s[j].path != s[i].path;
  }

  lemma NumberKept(now: map<Name, Content>, s: seq<File>, i: nat, keep: nat, m: nat)
    requires Ordered(s) && i < |s| && i < keep <= |s| && Pending(now, s, i, keep) && !ClashFrom(s, i, keep)
    requires i + 2 <= m <= keep && Archive(m) in now
    ensures s[i].path in now && Archive(m) in Renamed(now, s[i].path, Archive(i + 1))
    ensures Renamed(now, s[i].path, Archive(i + 1))[Archive(m)] == now[Archive(m)]
  {
    assert !Clash(s, m - 1);
    assert s[i].path != Archive(m);
  }

  lemma RenamedAt(now: map<Name, Content>, s: seq<File>, i: nat, keep: nat)
    requires Ordered(s) && i < |s| && i < keep <= |s| && Pending(now, s, i, keep)
    ensures s[i].path in now && Base in now
    ensures var t := Renamed(now, s[i].path, Archive(i + 1));
      Archive(i + 1) in t && t[Archive(i + 1)] == now[s[i].path] && Base in t && t[Base] == now[Base]
  {
  }

  lemma IgnoredKept(now: map<Name, Content>, src: Name, dst: Name, x: Name)
    requires src in now && Ignored(x) && !Ignored(src) && !Ignored(dst)
    ensures x in Renamed(now, src, dst) <==> x in now
    ensures x in now ==> Renamed(now, src, dst)[x] == now[x]
  {
  }

  lemma ShiftedParts(now: map<Name, Content>, was: map<Name, Content>, s: seq<File>, i: int, keep: nat)
    requires -1 <= i < |s| && keep <= |s| && Base in was && (forall j | 0 <= j < |s| :: s[j].path in was)
    requires Shifted(now, was, s, i, keep)
    ensures Pending(now, s, i, keep) && Base in now && now[Base] == was[Base]
    ensures forall x | Ignored(x) :: (x in now <==> x in was) && (x in now ==> now[x] == was[x])
    ensures forall j | 0 <= j <= i :: s[j].path in now && now[s[j].path] == was[s[j].path]
    ensures forall m: nat | i + 2 <= m <= keep :: Archive(m) in now && now[Archive(m)] == was[s[m - 1].path]
  {
  }

  lemma ShiftedWhole(now: map<Name, Content>, was: map<Name, Content>, s: seq<File>, i: int, keep: nat)
    requires -1 <= i < |s| && keep <= |s| && Base in was && (forall j | 0 <= j < |s| :: s[j].path in was)
    requires Pending(now, s, i, keep) && Base in now && now[Base] == was[Base]
    requires forall x | Ignored(x) :: (x in now <==> x in was) && (x in now ==> now[x] == was[x])
    requires forall j | 0 <= j <= i :: s[j].path in now && now[s[j].path] == was[s[j].path]
    requires forall m: nat | i + 2 <= m <= keep :: Archive(m) in now && now[Archive(m)] == was[s[m - 1].path]
    ensures Shifted(now, was, s, i, keep)
  {
  }

  lemma RenameContents(now: map<Name, Content>, was: map<Name, Content>, s: seq<File>, i: nat, keep: nat)
    requires Ordered(s) && i < |s| && i < keep <= |s| && Base in was && (forall j | 0 <= j < |s| :: s[j].path in was)
    requires Shifted(now, was, s, i, keep) && !ClashFrom(s, i, keep)
    ensures s[i].path in now && Shifted(Renamed(now, s[i].path, Archive(i + 1)), was, s, i - 1, keep)
  {
    hide Shifted, Pending, Clash, ClashFrom, Renamed, Ordered, Ignored;
    ShiftedParts(now, was, s, i, keep);
    RenamedAt(now, s, i, keep);
    RenameNames(now, s, i, keep);
    var t := Renamed(now, s[i].path, Archive(i + 1));
    Listed(s, i);
    forall x | Ignored(x)
      ensures (x in t <==> x in was) && (x in t ==> t[x] == was[x])
    {
      IgnoredKept(now, s[i].path, Archive(i + 1), x);
    }
    forall j | 0 <= j <= i - 1
      ensures s[j].path in t && t[s[j].path] == was[s[j].path]
    {
      EarlierKept(now, s, i, keep, j);
    }
    forall m: nat | i + 1 <= m <= keep
      ensures Archive(m) in t && t[Archive(m)] == was[s[m - 1].path]
    {
      if m > i + 1 {
        NumberKept(now, s, i, keep, m);
      }
    }
    ShiftedWhole(t, was, s, i - 1, keep);
  }

  class Rotater {
    var maxCount: int

    constructor (max: int)
      ensures maxCount == max
    {
      maxCount := max;
    }

    /** The loop of zlog_rotater_roll_files from the highest place down. */
    method ShiftFiles(dir: Directory, files: ArrayList<File>, ghost s: seq<File>) returns (rc: int)
      requires files.Valid() && files.Contents() == Somes(s)
      requires Lists(s, dir.files.Keys) && Base in dir.files
      modifies dir
      ensures rc == 0
      ensures var keep := Kept(|s|, maxCount);
        && dir.clobbered == (old(dir.clobbered) || ClashFrom(s, 0, keep))
        && Pending(dir.files, s, -1, keep)
        && (!ClashFrom(s, 0, keep) ==> Shifted(dir.files, old(dir.files), s, -1, keep))
    {
      hide Lists, Pending, Shifted, ClashFrom, Clash, Ordered;
      ghost var was, keep := dir.files, Kept(|s|, maxCount);
      ShiftStart(dir.files, s, maxCount);
      var i := files.len - 1;
      while i > -1
        invariant -1 <= i < |s|
        invariant Pending(dir.files, s, i, keep)
        invariant dir.clobbered == (old(dir.clobbered) || ClashFrom(s, i + 1, keep))
        invariant !ClashFrom(s, i + 1, keep) ==> Shifted(dir.files, was, s, i, keep)
      {
        ghost var now := dir.files;
        var file := files.Get(i);
        assert s[i].path in now by {
          PendingPath(now, s, i, keep);
        }
        if maxCount > 0 && i >= maxCount - 1 {
          UnlinkStep(now, s, i, keep);
          UnlinkContents(now, was, s, i, keep);
          rc := dir.Unlink(file.value.path);
          if rc != 0 {
            return -1;
          }
        } else {
          RenameNames(now, s, i, keep);
          RenameClash(now, s, i, keep);
          if !ClashFrom(s, i, keep) {
            RenameContents(now, was, s, i, keep);
          }
          rc := dir.Rename(file.value.path, Archive(i + 1));
          if rc != 0 {
            return -1;
          }
        }
        i := i - 1;
      }
      return 0;
    }

    /** zlog_rotater_roll_files: a file is lost iff some archive's number clashes. */
    method RollFiles(dir: Directory, files: ArrayList<File>, ghost s: seq<File>) returns (rc: int)
      requires files.Valid() && files.Contents() == Somes(s)
      requires Lists(s, dir.files.Keys) && Base in dir.files
      modifies dir
      ensures rc == 0
      ensures var keep := Kept(|s|, maxCount);
        && dir.clobbered == (old(dir.clobbered) || ClashFrom(s, 0, keep))
        && (forall x | x in dir.files :: (x.Archive? && x.n <= keep) || Ignored(x))
        && (!ClashFrom(s, 0, keep) ==> Rolled(dir.files, old(dir.files), s, keep))
      ensures Kept(|s|, maxCount) == |s| || Kept(|s|, maxCount) + 1 == maxCount
      ensures Kept(|s|, maxCount) <= |s| && (maxCount > 0 ==> Kept(|s|, maxCount) + 1 <= maxCount)
    {
      hide Lists, ClashFrom, Shifted, Pending, Rolled;
      ghost var was, keep := dir.files, Kept(|s|, maxCount);
      ShiftStart(was, s, maxCount);
      rc := ShiftFiles(dir, files, s);
      BaseStays(dir.files, s, keep);
      if !ClashFrom(s, 0, keep) {
        RolledFrom(dir.files, was, s, keep);
      }
      rc := dir.Rename(Base, Archive(0));
    }

    /** The loop of zlog_rotater_seq_files, which unlinks the oldest archives. */
    method TrimFiles(dir: Directory, files: ArrayList<File>, ghost s: seq<File>) returns (rc: int)
      requires files.Valid() && files.Contents() == Somes(s)
      requires Lists(s, dir.files.Keys) && Base in dir.files
      modifies dir
      ensures rc == 0 && dir.clobbered == old(dir.clobbered)
      ensures Trimmed(dir.files, old(dir.files), s, Dropped(|s|, maxCount))
    {
      hide Lists, Trimmed, Ordered;
      ghost var was, k := dir.files, Dropped(|s|, maxCount);
      TrimStart(was, s);
      var i := 0;
      while i < files.len
        invariant i <= |s| && dir.clobbered == old(dir.clobbered)
        invariant Trimmed(dir.files, was, s, if i < k then i else k)
      {
        if maxCount > 0 && i < files.len - maxCount {
          TrimStep(dir.files, was, s, i);
          var file := files.Get(i);
          rc := dir.Unlink(file.value.path);
          if rc != 0 {
            return -1;
          }
        }
        i := i + 1;
      }
      return 0;
    }

    /** zlog_rotater_seq_files: the oldest archives go, the base gets a number above all others. */
    method SeqFiles(dir: Directory, files: ArrayList<File>, ghost s: seq<File>) returns (rc: int)
      requires files.Valid() && files.Contents() == Somes(s)
      requires Lists(s, dir.files.Keys) && Base in dir.files
      modifies dir
      ensures rc == 0 && dir.clobbered == old(dir.clobbered)
      ensures Sequenced(dir.files, old(dir.files), s, Dropped(|s|, maxCount))
      ensures Dropped(|s|, maxCount) == 0 || Dropped(|s|, maxCount) + maxCount == |s|
      ensures maxCount > 0 ==> |s| <= Dropped(|s|, maxCount) + maxCount
      ensures NextNumber(s) ==
        if s != [] && s[|s| - 1].index >= |s| then s[|s| - 1].index + 1 else |s|
    {
      hide Lists, Trimmed, Ordered, Sequenced;
      ghost var was := dir.files;
      TrimStart(was, s);
      rc := TrimFiles(dir, files, s);
      var j := 0;
      if files.len > 0 {
        var last := files.Get(files.len - 1);
        j := Max(files.len - 1, last.value.index) + 1;
      }
      NumberFresh(dir.files, was, s, Dropped(|s|, maxCount));
      rc := dir.Rename(Base, Archive(j));
    }

    /** What the two ways of rotating leave of the listed archives, and when a file is lost. */
    ghost predicate Moved(now: map<Name, Content>, was: map<Name, Content>, lost: bool, lostBefore: bool,
                          s: seq<File>, rolling: bool)
      reads this
    {
      if rolling then
        && lost == (lostBefore || ClashFrom(s, 0, Kept(|s|, maxCount)))
        && (!ClashFrom(s, 0, Kept(|s|, maxCount)) ==> Rolled(now, was, s, Kept(|s|, maxCount)))
      else
        lost == lostBefore && Sequenced(now, was, s, Dropped(|s|, maxCount))
    }

    /** zlog_rotater_lsmv: list, then move. */
    method ListAndMove(dir: Directory, rolling: bool) returns (rc: int, ghost s: seq<File>)
      requires Base in dir.files
      modifies dir
      ensures rc == 0 && Lists(s, old(dir.files.Keys))
      ensures Moved(dir.files, old(dir.files), dir.clobbered, old(dir.clobbered), s, rolling)
    {
      hide Lists, ClashFrom, Rolled, Sequenced;
      var files;
      files, s := AddArchiveFiles(dir);
      if rolling {
        rc := RollFiles(dir, files, s);
      } else {
        rc := SeqFiles(dir, files, s);
      }
    }

    /** zlog_rotater_rotate: without its locks it does nothing and says so to nobody; with them it
        still does nothing while the next message fits. */
    method Rotate(dir: Directory, locked: bool, rolling: bool, msgLen: nat, maxSize: nat)
      returns (rc: int, ghost s: seq<File>)
      modifies dir
      ensures rc == if locked && Base !in old(dir.files) then -1 else 0
      ensures !locked || rc != 0 || |old(dir.files)[Base]| + msgLen <= maxSize
        ==> dir.files == old(dir.files) && dir.clobbered == old(dir.clobbered)
      ensures locked && rc == 0 && |old(dir.files)[Base]| + msgLen > maxSize
        ==> && Lists(s, old(dir.files.Keys))
            && Moved(dir.files, old(dir.files), dir.clobbered, old(dir.clobbered), s, rolling)
    {
      hide Lists, ClashFrom, Rolled, Sequenced;
      s := [];
      if !locked {
        return 0, s;
      }
      if Base !in dir.files {
        return -1, s;
      }
      if |dir.files[Base]| + msgLen <= maxSize {
        return 0, s;
      }
      rc, s := ListAndMove(dir, rolling);
    }
  }

  lemma ShiftStart(was: map<Name, Content>, s: seq<File>, max: int)
    requires Lists(s, was.Keys) && Base in was
    ensures var keep := Kept(|s|, max);
      && Ordered(s) && keep <= |s| && (forall j | 0 <= j < |s| :: s[j].path in was)
      && Pending(was, s, |s| - 1, keep) && Shifted(was, was, s, |s| - 1, keep) && !ClashFrom(s, |s|, keep)
  {
  }

  lemma PendingPath(now: map<Name, Content>, s: seq<File>, i: nat, keep: nat)
    requires i < |s| && Pending(now, s, i, keep)
    ensures s[i].path in now
  {
  }

  lemma UnlinkContents(now: map<Name, Content>, was: map<Name, Content>, s: seq<File>, i: nat, keep: nat)
    requires Ordered(s) && i < |s| && keep <= i && Base in was && (forall j | 0 <= j < |s| :: s[j].path in was)
    requires Shifted(now, was, s, i, keep)
    ensures Shifted(now - {s[i].path}, was, s, i - 1, keep)
  {
    UnlinkStep(now, s, i, keep);
  }

  lemma TrimStart(was: map<Name, Content>, s: seq<File>)
    requires Lists(s, was.Keys) && Base in was
    ensures Ordered(s) && Trimmed(was, was, s, 0) && forall i | 0 <= i < |s| :: s[i].path in was
  {
  }

  lemma BaseStays(now: map<Name, Content>, s: seq<File>, keep: nat)
    requires Pending(now, s, -1, keep)
    ensures Base in now && Archive(0) !in now
    ensures forall x | x in Renamed(now, Base, Archive(0)) :: (x.Archive? && x.n <= keep) || Ignored(x)
  {
  }

  lemma RolledFrom(now: map<Name, Content>, was: map<Name, Content>, s: seq<File>, keep: nat)
    requires keep <= |s| && Base in was && (forall j | 0 <= j < |s| :: s[j].path in was)
    requires Shifted(now, was, s, -1, keep)
    ensures Base in now && Rolled(Renamed(now, Base, Archive(0)), was, s, keep)
  {
  }

  // ---- SEQUENCE ----

  /** How many of the oldest archives are unlinked. */
  function Dropped(count: nat, max: int): nat {
    if max > 0 && count > max then count - max else 0
  }

  function NextNumber(s: seq<File>): int {
    if |s| > 0 then Max(|s| - 1, s[|s| - 1].index) + 1 else 0
  }

  /** The first k archives are gone and nothing else has changed. */
  ghost predicate Trimmed(now: map<Name, Content>, was: map<Name, Content>, s: seq<File>, k: nat)
    requires k <= |s|
  {
    && (forall x :: x in now <==> x in was && (x == Base || Ignored(x) || exists i | k <= i < |s| :: s[i].path == x))
    && (forall x | x in now :: now[x] == was[x])
  }

  lemma TrimStep(now: map<Name, Content>, was: map<Name, Content>, s: seq<File>, k: nat)
    requires k < |s| && Ordered(s) && Trimmed(now, was, s, k) && s[k].path in was
    ensures s[k].path in now && Trimmed(now - {s[k].path}, was, s, k + 1)
  {
    var t := now - {s[k].path};
    forall x
      ensures x in t <==> x in was && (x == Base || Ignored(x) || exists i | k + 1 <= i < |s| :: s[i].path == x)
    {
      if x in now && x != s[k].path && x != Base && !Ignored(x) {
        var i :| k <= i < |s| && s[i].path == x;
        assert i != k;
      }
    }
  }

  /** The base's content has the greatest number, the kept archives their own. */
  ghost predicate Sequenced(now: map<Name, Content>, was: map<Name, Content>, s: seq<File>, k: nat) {
    && k <= |s| && Base in was && NextNumber(s) >= 0
    && (forall i | 0 <= i < |s| :: s[i].index < NextNumber(s))
    && (forall x :: x in now <==>
          || x == Archive(NextNumber(s))
          || (x in was && (Ignored(x) || exists i | k <= i < |s| :: s[i].path == x)))
    && (forall x | Ignored(x) && x in was :: now[x] == was[x])
    && now[Archive(NextNumber(s))] == was[Base]
    && (forall i | k <= i < |s| && s[i].path in was :: now[s[i].path] == was[s[i].path])
  }

  lemma NumberFresh(now: map<Name, Content>, was: map<Name, Content>, s: seq<File>, k: nat)
    requires k <= |s| && Ordered(s) && Trimmed(now, was, s, k) && Base in was
    ensures NextNumber(s) >= 0 && Archive(NextNumber(s)) !in now && Base in now
    ensures forall i | 0 <= i < |s| :: s[i].index < NextNumber(s)
    ensures Sequenced(Renamed(now, Base, Archive(NextNumber(s))), was, s, k)
  {
    NumberAbove(s);
    hide Ordered, NextNumber, Ignored;
    forall i | k <= i < |s| && s[i].path in was
      ensures s[i].path in now
    {
    }
  }

  lemma NumberAbove(s: seq<File>)
    requires Ordered(s)
    ensures NextNumber(s) >= 0 && !Ignored(Archive(NextNumber(s)))
    ensures forall i | 0 <= i < |s| ::
      s[i].index < NextNumber(s) && s[i].path != Archive(NextNumber(s)) && s[i].path != Base
  {
    forall i | 0 <= i < |s|
      ensures s[i].index < NextNumber(s) && s[i].path != Archive(NextNumber(s)) && s[i].path != Base
    {
      assert CheckNew(s[i].path) == Some(s[i]);
    }
  }

  // ---- the listing ----

  function FilesOf(listing: seq<Name>): seq<File> {
    if listing == [] then []
    else
      FilesOf(listing[..|listing| - 1]) +
      (var f := CheckNew(listing[|listing| - 1]); if f == None then [] else [f.value])
  }

  predicate NoDuplicates<T(==)>(s: seq<T>) {
    forall i, j | 0 <= i < j < |s| :: s[i] != s[j]
  }

  lemma {:induction false} FilesOfListing(listing: seq<Name>)
    requires NoDuplicates(listing)
    ensures NoDuplicates(FilesOf(listing))
    ensures forall f | f in FilesOf(listing) :: f.path in listing && CheckNew(f.path) == Some(f)
    ensures forall x | x in listing && CheckNew(x) != None :: CheckNew(x).value in FilesOf(listing)
  {
    if listing != [] {
      FilesOfListing(listing[..|listing| - 1]);
    }
  }

  lemma {:induction false} MultisetOnce<T>(s: seq<T>)
    ensures NoDuplicates(s) <==> forall x | x in multiset(s) :: multiset(s)[x] == 1
  {
    if s != [] {
      var t, x := s[..|s| - 1], s[|s| - 1];
      assert s == t + [x];
      MultisetOnce(t);
      if NoDuplicates(s) {
        assert x !in t;
      } else if NoDuplicates(t) {
        var i, j :| 0 <= i < j < |s| && s[i] == s[j];
        assert j == |s| - 1 && x in t;
        assert multiset(s)[x] == 2;
      } else {
        var y :| y in multiset(t) && multiset(t)[y] != 1;
        assert multiset(s)[y] > 1;
      }
    }
  }

  lemma OnceOrdered(s: seq<File>)
    requires Sorted(s, IndexOf) && NoDuplicates(s) && forall f | f in s :: CheckNew(f.path) == Some(f)
    ensures Ordered(s)
  {
    forall i, j | 0 <= i < j < |s|
      ensures s[i].index <= s[j].index && s[i].path != s[j].path
    {
      assert IndexOf(s[i]) <= IndexOf(s[j]);
      assert s[i] in s && s[j] in s;
    }
  }

  lemma SortedFiles(fs: seq<File>)
    requires NoDuplicates(fs)
    ensures var s := SortedAll(fs, IndexOf);
      Sorted(s, IndexOf) && NoDuplicates(s) && forall f :: f in s <==> f in fs
  {
    SortedAllStable(fs, IndexOf);
    MultisetOnce(fs);
    MultisetOnce(SortedAll(fs, IndexOf));
    SameMembers(fs, SortedAll(fs, IndexOf));
  }

  lemma ListedFrom(names: set<Name>, fs: seq<File>, s: seq<File>)
    requires Ordered(s) && forall f :: f in s <==> f in fs
    requires forall f | f in fs :: f.path in names
    requires forall x | x in names && CheckNew(x) != None :: CheckNew(x).value in fs
    ensures Lists(s, names)
  {
    forall i | 0 <= i < |s|
      ensures s[i].path in names
    {
      assert s[i] in s;
    }
    forall x | x in names && CheckNew(x) != None
      ensures exists i | 0 <= i < |s| :: s[i].path == x
    {
      assert CheckNew(x).value in s && CheckNew(x).value.path == x;
    }
  }

  /** Whatever the order of the listing, sortadd leaves the archives in order of their numbers. */
  lemma SortedLists(listing: seq<Name>)
    requires NoDuplicates(listing)
    ensures Lists(SortedAll(FilesOf(listing), IndexOf), set x | x in listing)
  {
    hide SortedAll, FilesOf, Sorted, NoDuplicates, Lists, Ordered, CheckNew;
    var fs := FilesOf(listing);
    var s := SortedAll(fs, IndexOf);
    FilesOfListing(listing);
    SortedFiles(fs);
    OnceOrdered(s);
    ListedFrom((set x | x in listing), fs, s);
  }

  lemma SameMembers<T>(a: seq<T>, b: seq<T>)
    requires multiset(a) == multiset(b)
    ensures forall x :: x in a <==> x in b
  {
    assert forall x :: x in a <==> x in multiset(a);
  }

  /** glob with GLOB_NOSORT: every name once, in any order. */
  method Glob(dir: Directory) returns (listing: seq<Name>)
    ensures NoDuplicates(listing) && (set x | x in listing) == dir.files.Keys
  {
    listing := [];
    var left := dir.files.Keys;
    while left != {}
      invariant NoDuplicates(listing) && left <= dir.files.Keys
      invariant forall x | x in listing :: x !in left
      invariant (set x | x in listing) + left == dir.files.Keys
      decreases left
    {
      var x :| x in left;
      listing := listing + [x];
      left := left - {x};
    }
  }

  /** zlog_rotater_add_archive_files. */
  method AddArchiveFiles(dir: Directory) returns (files: ArrayList<File>, ghost s: seq<File>)
    ensures fresh(files) && files.Valid() && files.Contents() == Somes(s)
    ensures Lists(s, dir.files.Keys)
  {
    var listing := Glob(dir);
    files := new ArrayList<File>();
    s := [];
    var i := 0;
    while i < |listing|
      invariant i <= |listing| && files.Valid() && fresh(files) && fresh(files.items)
      invariant s == SortedAll(FilesOf(listing[..i]), IndexOf) && files.Contents() == Somes(s)
    {
      FilesSnoc(listing, i);
      var file := CheckNew(listing[i]);
      assert FilesOf(listing[..i]) + [] == FilesOf(listing[..i]);
      if file != None {
        SortedAllSnoc(FilesOf(listing[..i]), file.value);
        files.SortAdd(file.value, IndexOf, s);
        s := SortedInsert(s, file.value, IndexOf);
      }
      i := i + 1;
    }
    assert listing[..i] == listing;
    SortedLists(listing);
  }

  lemma FilesSnoc(listing: seq<Name>, i: nat)
    requires i < |listing|
    ensures FilesOf(listing[..i + 1]) ==
      FilesOf(listing[..i]) + (if CheckNew(listing[i]) == None then [] else [CheckNew(listing[i]).value])
  {
    assert listing[..i + 1][..i] == listing[..i];
  }

  lemma SortedAllSnoc(fs: seq<File>, f: File)
    ensures SortedAll(fs + [f], IndexOf) == SortedInsert(SortedAll(fs, IndexOf), f, IndexOf)
  {
    assert (fs + [f])[..|fs|] == fs;
  }

  // ---- runs from an empty archive directory ----

  /** The archives are exactly those with numbers from lo to hi. */
  ghost predicate Range(now: map<Name, Content>, lo: nat, hi: nat) {
    lo <= hi && forall x :: x in now <==> x.Archive? && lo <= x.n < hi
  }

  lemma {:induction false} RangeSize(now: map<Name, Content>, lo: nat, hi: nat)
    requires Range(now, lo, hi)
    ensures |now| == hi - lo
    decreases hi - lo
  {
    if lo == hi {
      assert now.Keys == {};
    } else {
      var t := now - {Archive(lo)};
      assert now == t[Archive(lo) := now[Archive(lo)]];
      RangeSize(t, lo + 1, hi);
    }
  }

  /** Archives with the names snprintf makes, by rising number. */
  predicate Rising(s: seq<File>) {
    && (forall i | 0 <= i < |s| :: s[i].index >= 0 && s[i].path == Archive(s[i].index))
    && (forall i, j | 0 <= i < j < |s| :: s[i].index < s[j].index)
  }

  lemma RangeRising(s: seq<File>, now: map<Name, Content>, lo: nat, hi: nat)
    requires Base !in now && Lists(s, now.Keys + {Base}) && Range(now, lo, hi)
    ensures Rising(s)
  {
    forall i | 0 <= i < |s|
      ensures s[i].path == Archive(s[i].index)
    {
      assert CheckNew(s[i].path) == Some(s[i]) && s[i].path in now;
    }
  }

  lemma {:induction false} RisingFrom(s: seq<File>, lo: nat, i: nat)
    requires Rising(s) && i < |s| && s[0].index >= lo
    ensures s[i].index >= lo + i
  {
    if i > 0 {
      RisingFrom(s, lo, i - 1);
    }
  }

  lemma RangeMember(s: seq<File>, now: map<Name, Content>, lo: nat, hi: nat, n: nat) returns (p: nat)
    requires Base !in now && Lists(s, now.Keys + {Base}) && Range(now, lo, hi) && lo <= n < hi
    ensures p < |s| && s[p].index == n && s[0].index >= lo && Rising(s)
  {
    assert Archive(n) in now.Keys + {Base};
    p :| 0 <= p < |s| && s[p].path == Archive(n);
    assert s[0].path in now;
  }

  /** A gapless range lists as lo, lo + 1, ... */
  lemma {:induction false} RangePlace(s: seq<File>, now: map<Name, Content>, lo: nat, hi: nat, n: nat)
    requires Base !in now && Lists(s, now.Keys + {Base}) && Range(now, lo, hi) && lo <= n < hi
    ensures n - lo < |s| && forall i | 0 <= i <= n - lo :: s[i].index == lo + i
    decreases n
  {
    hide *;
    var p := RangeMember(s, now, lo, hi, n);
    RisingFrom(s, lo, p);
    if n > lo {
      RangePlace(s, now, lo, hi, n - 1);
    }
    if p < n - lo {
      assert false;
    }
  }

  lemma RangeListed(s: seq<File>, now: map<Name, Content>, lo: nat, hi: nat)
    requires Base !in now && Lists(s, now.Keys + {Base}) && Range(now, lo, hi)
    ensures |s| == hi - lo
    ensures forall i | 0 <= i < |s| :: s[i].index == lo + i && s[i].path == Archive(lo + i)
  {
    RangeRising(s, now, lo, hi);
    if lo < hi {
      RangePlace(s, now, lo, hi, hi - 1);
    }
    if |s| > hi - lo {
      assert s[hi - lo].path in now;
      assert s[0].path in now;
      RisingFrom(s, lo, hi - lo);
      assert false;
    }
  }

  function RollCount(n: nat, max: int): nat { if max > 0 && n > max then max else n }

  function SeqStart(n: nat, max: int): nat { if max > 0 && n > max + 1 then n - (max + 1) else 0 }

  /** The last `max` contents, the latest as archive 0. */
  ghost predicate RollHistory(now: map<Name, Content>, cs: seq<Content>, max: int) {
    && Range(now, 0, RollCount(|cs|, max))
    && forall m: nat | m < RollCount(|cs|, max) :: now[Archive(m)] == cs[|cs| - 1 - m]
  }

  /** The last max + 1 contents, each under the number of its rotation. */
  ghost predicate SeqHistory(now: map<Name, Content>, cs: seq<Content>, max: int) {
    && Range(now, SeqStart(|cs|, max), |cs|)
    && forall m: nat | SeqStart(|cs|, max) <= m < |cs| :: now[Archive(m)] == cs[m]
  }

  /** It takes a gap to clash; numbers that repeat, as "aa.2" and "aa.02" do, never clash. */
  lemma NoGapNoClash(s: seq<File>, keep: nat)
    requires Ordered(s) && forall i | 0 <= i < |s| :: s[i].index <= i + 1
    ensures !ClashFrom(s, 0, keep)
  {
    forall i: nat
      ensures !Clash(s, i)
    {
      assert forall j | 0 <= j < |s| :: s[j].path == Archive(i + 1) ==> s[j].index == i + 1;
    }
  }

  /** With a gap an archive can be lost: of archives 2 and 9 the later one takes the name of the other. */
  lemma GapClashes()
    ensures var s := [File(2, Archive(2)), File(9, Archive(9))];
      Lists(s, {Base, Archive(2), Archive(9)}) && ClashFrom(s, 0, Kept(2, 0))
  {
    var s := [File(2, Archive(2)), File(9, Archive(9))];
    assert s[0].path == Archive(2) && s[1].path == Archive(9);
    assert Clash(s, 1);
  }

  lemma RangeTaken(was: map<Name, Content>, lo: nat, hi: nat, c: Content)
    requires Range(was, lo, hi)
    ensures forall x | x in was[Base := c] :: !Ignored(x)
  {
  }

  lemma RolledRange(now: map<Name, Content>, was: map<Name, Content>, s: seq<File>, keep: nat)
    requires Rolled(now, was, s, keep) && forall x | x in was :: !Ignored(x)
    ensures Range(now, 0, keep + 1)
  {
  }

  lemma RolledContents(was: map<Name, Content>, now: map<Name, Content>, s: seq<File>, cs: seq<Content>, c: Content,
                       max: int, m: nat)
    requires RollHistory(was, cs, max) && |s| == RollCount(|cs|, max)
    requires forall i | 0 <= i < |s| :: s[i].path == Archive(i)
    requires Rolled(now, was[Base := c], s, Kept(|s|, max)) && m <= Kept(|s|, max)
    ensures m <= |cs| && now[Archive(m)] == (cs + [c])[|cs| - m]
  {
    hide Range;
    if m > 0 {
      assert s[m - 1].path == Archive(m - 1);
      assert now[Archive(m)] == was[Base := c][s[m - 1].path];
      assert was[Archive(m - 1)] == cs[|cs| - 1 - (m - 1)];
    }
  }

  lemma RollKeeps(was: map<Name, Content>, now: map<Name, Content>, s: seq<File>, cs: seq<Content>, c: Content,
                  max: int)
    requires RollHistory(was, cs, max) && |s| == RollCount(|cs|, max)
    requires forall i | 0 <= i < |s| :: s[i].path == Archive(i)
    requires Rolled(now, was[Base := c], s, Kept(|s|, max))
    ensures RollHistory(now, cs + [c], max)
  {
    hide Range, Rolled;
    var ds, keep := cs + [c], Kept(|s|, max);
    assert keep + 1 == RollCount(|ds|, max);
    RangeTaken(was, 0, RollCount(|cs|, max), c);
    RolledRange(now, was[Base := c], s, keep);
    forall m: nat | m <= keep
      ensures m <= |cs| && now[Archive(m)] == ds[|cs| - m]
    {
      RolledContents(was, now, s, cs, c, max, m);
    }
  }

  lemma HistoryRange(now: map<Name, Content>, cs: seq<Content>, max: int)
    ensures RollHistory(now, cs, max) ==> Base !in now && Range(now, 0, RollCount(|cs|, max))
    ensures SeqHistory(now, cs, max) ==> Base !in now && Range(now, SeqStart(|cs|, max), |cs|)
  {
  }

  lemma ListsOrdered(s: seq<File>, names: set<Name>)
    requires Lists(s, names)
    ensures Ordered(s)
  {
  }

  lemma RollOnce(was: map<Name, Content>, now: map<Name, Content>, s: seq<File>, cs: seq<Content>, c: Content, max: int)
    requires RollHistory(was, cs, max) && Lists(s, was.Keys + {Base})
    ensures !ClashFrom(s, 0, Kept(|s|, max))
    ensures Rolled(now, was[Base := c], s, Kept(|s|, max)) ==> RollHistory(now, cs + [c], max)
  {
    hide Rolled, RollHistory, Lists, ClashFrom, Ordered, Range;
    HistoryRange(was, cs, max);
    RangeListed(s, was, 0, RollCount(|cs|, max));
    ListsOrdered(s, was.Keys + {Base});
    NoGapNoClash(s, Kept(|s|, max));
    if Rolled(now, was[Base := c], s, Kept(|s|, max)) {
      RollKeeps(was, now, s, cs, c, max);
    }
  }

  lemma SeqKeeps(was: map<Name, Content>, now: map<Name, Content>, s: seq<File>, cs: seq<Content>, c: Content, max: int)
    requires SeqHistory(was, cs, max) && |s| == |cs| - SeqStart(|cs|, max)
    requires forall i | 0 <= i < |s| ::
      s[i].path == Archive(SeqStart(|cs|, max) + i) && s[i].index == SeqStart(|cs|, max) + i
    requires Sequenced(now, was[Base := c], s, Dropped(|s|, max))
    ensures NextNumber(s) == |cs| && SeqHistory(now, cs + [c], max)
  {
    hide Ignored;
    var ds, k, lo := cs + [c], Dropped(|s|, max), SeqStart(|cs|, max);
    assert lo + k == SeqStart(|ds|, max);
    RangeTaken(was, lo, |cs|, c);
    forall x
      ensures x in now <==> x.Archive? && lo + k <= x.n < |ds|
    {
      if x.Archive? && lo + k <= x.n < |cs| {
        assert s[x.n - lo].path == x;
      }
    }
    forall m: nat | lo + k <= m < |ds|
      ensures now[Archive(m)] == ds[m]
    {
      if m < |cs| {
        assert s[m - lo].path == Archive(m);
      }
    }
  }

  lemma SeqOnce(was: map<Name, Content>, now: map<Name, Content>, s: seq<File>, cs: seq<Content>, c: Content, max: int)
    requires SeqHistory(was, cs, max) && Lists(s, was.Keys + {Base})
    requires Sequenced(now, was[Base := c], s, Dropped(|s|, max))
    ensures NextNumber(s) == |cs| && SeqHistory(now, cs + [c], max)
  {
    hide Sequenced, SeqHistory, Lists, Range;
    HistoryRange(was, cs, max);
    RangeListed(s, was, SeqStart(|cs|, max), |cs|);
    SeqKeeps(was, now, s, cs, c, max);
  }

  /** ROLLING over any run: archive k holds the (k+1)-th latest content, at most max are kept, and
      no file was ever overwritten. */
  method RunRolling(dir: Directory, contents: seq<Content>, max: int)
    requires dir.files == map[] && !dir.clobbered
    modifies dir
    ensures forall x :: x in dir.files <==> x.Archive? && x.n < |contents| && (max > 0 ==> x.n < max)
    ensures forall k: nat | Archive(k) in dir.files :: dir.files[Archive(k)] == contents[|contents| - 1 - k]
    ensures max > 0 ==> |dir.files| <= max
    ensures !dir.clobbered
  {
    hide RollHistory, Lists, Rolled, ClashFrom;
    var rotater := new Rotater(max);
    RollNothing(max);
    var i := 0;
    while i < |contents|
      invariant i <= |contents| && rotater.maxCount == max && !dir.clobbered
      invariant RollHistory(dir.files, contents[..i], max)
    {
      ghost var was := dir.files;
      dir.files := dir.files[Base := contents[i]];
      var rc; ghost var s;
      rc, s := rotater.ListAndMove(dir, true);
      assert was[Base := contents[i]].Keys == was.Keys + {Base};
      RollOnce(was, dir.files, s, contents[..i], contents[i], max);
      assert contents[..i + 1] == contents[..i] + [contents[i]];
      i := i + 1;
    }
    assert contents[..i] == contents;
    RollSize(dir.files, contents, max);
    RollMeans(dir.files, contents, max);
  }

  lemma RollMeans(now: map<Name, Content>, cs: seq<Content>, max: int)
    requires RollHistory(now, cs, max)
    ensures forall x :: x in now <==> x.Archive? && x.n < |cs| && (max > 0 ==> x.n < max)
    ensures forall k: nat | Archive(k) in now :: now[Archive(k)] == cs[|cs| - 1 - k]
  {
  }

  lemma SeqMeans(now: map<Name, Content>, cs: seq<Content>, max: int)
    requires SeqHistory(now, cs, max)
    ensures forall x :: x in now <==> x.Archive? && x.n < |cs| && (max > 0 ==> |cs| <= x.n + max + 1)
    ensures forall k: nat | Archive(k) in now :: now[Archive(k)] == cs[k]
  {
  }

  lemma RollNothing(max: int)
    ensures RollHistory(map[], [], max) && SeqHistory(map[], [], max)
  {
  }

  lemma RollSize(now: map<Name, Content>, cs: seq<Content>, max: int)
    ensures RollHistory(now, cs, max) && max > 0 ==> |now| <= max
    ensures SeqHistory(now, cs, max) && max > 0 ==> |now| <= max + 1
  {
    if RollHistory(now, cs, max) && max > 0 {
      RangeSize(now, 0, RollCount(|cs|, max));
    }
    if SeqHistory(now, cs, max) && max > 0 {
      RangeSize(now, SeqStart(|cs|, max), |cs|);
    }
  }

  /** SEQUENCE over any run: rotation n makes archive n, at most max + 1 are kept, and no file was
      ever overwritten. */
  method RunSequence(dir: Directory, contents: seq<Content>, max: int)
    requires dir.files == map[] && !dir.clobbered
    modifies dir
    ensures forall x :: x in dir.files <==> x.Archive? && x.n < |contents| && (max > 0 ==> |contents| <= x.n + max + 1)
    ensures forall k: nat | Archive(k) in dir.files :: dir.files[Archive(k)] == contents[k]
    ensures max > 0 ==> |dir.files| <= max + 1
    ensures !dir.clobbered
  {
    hide SeqHistory, Lists, Sequenced;
    var rotater := new Rotater(max);
    RollNothing(max);
    var i := 0;
    while i < |contents|
      invariant i <= |contents| && rotater.maxCount == max && !dir.clobbered
      invariant SeqHistory(dir.files, contents[..i], max)
    {
      ghost var was := dir.files;
      dir.files := dir.files[Base := contents[i]];
      var rc; ghost var s;
      rc, s := rotater.ListAndMove(dir, false);
      assert was[Base := contents[i]].Keys == was.Keys + {Base};
      SeqOnce(was, dir.files, s, contents[..i], contents[i], max);
      assert contents[..i + 1] == contents[..i] + [contents[i]];
      i := i + 1;
    }
    assert contents[..i] == contents;
    RollSize(dir.files, contents, max);
    SeqMeans(dir.files, contents, max);
  }
}

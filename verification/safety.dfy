/**
 * The file-safety layer (`FileSafetyManager`): content hashing, collision
 * detection, versioned backups, the overwrite prompt and the fixed-order
 * gate run before every write.
 *
 * The file system is a value: a map from path to the bytes of each
 * existing file.  SHA-256 is a parameter `digest`, an uninterpreted
 * function from bytes to a hex string.  The typed answer to the prompt and
 * the success of the copy are inputs.
 */
module FileSafety {
  import opened Text
  import opened Wrappers

  newtype byte = x: int | 0 <= x < 256

  type Path = string

  /** Existing files and their contents. */
  type Store = map<Path, seq<byte>>

  /** `SafetyConfig`, without `backup_suffix`, which stays ".backup". */
  datatype SafetyConfig = SafetyConfig(
    requireConfirmation: bool,
    createBackup: bool,
    checkHash: bool,
    preventOverwrite: bool)

  const DefaultSafety := SafetyConfig(true, true, true, true)

  const BackupSuffix := ".backup"

  /** The result of `safe_write_check`: (can_proceed, reason). */
  datatype Verdict = Verdict(canProceed: bool, reason: string)

  /** `calculate_file_hash`: the digest of the contents, "" for a missing file. */
  function FileHash(store: Store, digest: seq<byte> -> string, p: Path): string {
    if p in store then digest(store[p]) else ""
  }

  /** `Path.name`: the last component of a normalised path. */
  function BaseName(p: Path): string {
    p[LastIndexOf(p, '/') + 1..]
  }

  /** `Path.stem`: the name without its last suffix; a leading or trailing
      dot does not start a suffix. */
  function Stem(p: Path): string {
    var n := BaseName(p);
    var i := LastIndexOf(n, '.');
    if 0 < i < |n| - 1 then n[..i] else n
  }

  lemma BaseNameUnder(dir: string, name: string)
    requires dir == [] || dir[|dir| - 1] == '/'
    requires '/' !in name
    ensures BaseName(dir + name) == name
  {
    LastIndexOfAppend(dir, name, '/');
    if dir != [] {
      assert LastIndexOf(dir, '/') == |dir| - 1;
    }
    assert (dir + name)[|dir|..] == name;
  }

  lemma LastDot(base: string, ext: string)
    requires '.' !in ext
    ensures LastIndexOf(base + "." + ext, '.') == |base|
  {
    var dot: string := ".";
    assert base + "." + ext == base + (dot + ext);
    LastIndexOfAppend(dot, ext, '.');
    LastIndexOfAppend(base, dot + ext, '.');
  }

  lemma StemOfName(base: string, ext: string)
    requires base != [] && '/' !in base
    requires ext != [] && '.' !in ext && '/' !in ext
    ensures Stem(base + "." + ext) == base
  {
    var name := base + "." + ext;
    assert '/' !in name;
    BaseNameUnder([], name);
    assert [] + name == name;
    LastDot(base, ext);
    assert name[..|base|] == base;
  }

  /** A file and its conversion in the same or another directory share a
      stem: `dir/base.ext` has stem `base`. */
  lemma StemOfFile(dir: string, base: string, ext: string)
    requires dir == [] || dir[|dir| - 1] == '/'
    requires base != [] && '/' !in base
    requires ext != [] && '.' !in ext && '/' !in ext
    ensures Stem(dir + base + "." + ext) == base
  {
    var name := base + "." + ext;
    AppendRegroup(dir, base, ".", ext);
    assert '/' !in name;
    StemUnder(dir, name);
    StemOfName(base, ext);
  }

  /** The directory part does not change the stem. */
  lemma StemUnder(dir: string, name: string)
    requires dir == [] || dir[|dir| - 1] == '/'
    requires '/' !in name
    ensures Stem(dir + name) == Stem(name)
  {
    BaseNameUnder(dir, name);
    BaseNameUnder([], name);
    assert [] + name == name;
  }

  /** `detect_conversion_collision`: the target exists, has the source's
      stem and a different digest. */
  function DetectConversionCollision(store: Store, digest: seq<byte> -> string,
                                     source: Path, target: Path): bool
  {
    if target !in store then false
    else if Stem(source) == Stem(target) then
      FileHash(store, digest, source) != FileHash(store, digest, target)
    else false
  }

  /** No collision without an existing target, and none between files of
      equal content, whatever their names. */
  lemma NoCollisionCases(store: Store, digest: seq<byte> -> string, source: Path, target: Path)
    ensures target !in store ==> !DetectConversionCollision(store, digest, source, target)
    ensures source in store && target in store && store[source] == store[target] ==>
              !DetectConversionCollision(store, digest, source, target)
  {
  }

  /** A real digest is never empty, so an existing target whose stem matches a
      missing source is a collision. */
  lemma MissingSourceCollides(store: Store, digest: seq<byte> -> string, source: Path, target: Path)
    requires forall b :: |digest(b)| == 64
    requires source !in store && target in store && Stem(source) == Stem(target)
    ensures DetectConversionCollision(store, digest, source, target)
  {
    assert |digest(store[target])| == 64;
  }

  // ---------------------------------------------------------------------
  // Backups

  /** The k-th name tried by `create_backup`: `p.backup`, then `p.backup.1`,
      `p.backup.2`, ... (`with_suffix` appends to the full name). */
  function BackupCandidate(p: Path, k: nat): Path {
    if k == 0 then p + BackupSuffix else p + BackupSuffix + "." + NatToString(k)
  }

  /** Distinct counters give distinct names. */
  lemma {:induction false} BackupCandidateInjective(p: Path, j: nat, k: nat)
    ensures BackupCandidate(p, j) == BackupCandidate(p, k) ==> j == k
  {
    var a, b := BackupCandidate(p, j), BackupCandidate(p, k);
    if j != 0 && k != 0 && a == b {
      assert a[|p| + 8..] == NatToString(j);
      assert b[|p| + 8..] == NatToString(k);
      NatToStringInjective(j, k);
    }
    assert (j == 0) != (k == 0) ==> |a| != |b|;
  }

  /** The first n candidate names. */
  function Candidates(p: Path, n: nat): set<Path> {
    if n == 0 then {} else Candidates(p, n - 1) + {BackupCandidate(p, n - 1)}
  }

  lemma {:induction false} CandidatesSize(p: Path, n: nat)
    ensures |Candidates(p, n)| == n
  {
    if n > 0 {
      CandidatesSize(p, n - 1);
      LaterNotCandidate(p, n - 1, n - 1);
    }
  }

  /** A name with a counter of n or more is not among the first n. */
  lemma {:induction false} LaterNotCandidate(p: Path, n: nat, m: nat)
    requires n <= m
    ensures BackupCandidate(p, m) !in Candidates(p, n)
  {
    if n > 0 {
      LaterNotCandidate(p, n - 1, m);
      BackupCandidateInjective(p, n - 1, m);
    }
  }

  /** The first n names are in the store when each of them is. */
  lemma {:induction false} CandidatesInStore(store: Store, p: Path, n: nat)
    requires forall j :: 0 <= j < n ==> BackupCandidate(p, j) in store
    ensures Candidates(p, n) <= store.Keys
  {
    if n > 0 {
      CandidatesInStore(store, p, n - 1);
    }
  }

  /** A finite store holds at most |store| candidate names. */
  lemma CandidatesBound(store: Store, p: Path, n: nat)
    requires forall j :: 0 <= j < n ==> BackupCandidate(p, j) in store
    ensures n <= |store.Keys|
  {
    CandidatesSize(p, n);
    CandidatesInStore(store, p, n);
    var c := Candidates(p, n);
    assert store.Keys == c + (store.Keys - c);
  }

  function FreeFrom(store: Store, p: Path, k: nat): (r: nat)
    requires forall j :: 0 <= j < k ==> BackupCandidate(p, j) in store
    decreases |store.Keys| - k
    ensures k <= r
    ensures BackupCandidate(p, r) !in store
    ensures forall j :: 0 <= j < r ==> BackupCandidate(p, j) in store
  {
    if BackupCandidate(p, k) !in store then k
    else
      CandidatesBound(store, p, k + 1);
      FreeFrom(store, p, k + 1)
  }

  /** The index of the first candidate name that is not taken. */
  function FirstFreeIndex(store: Store, p: Path): (r: nat)
    ensures BackupCandidate(p, r) !in store
    ensures forall j :: 0 <= j < r ==> BackupCandidate(p, j) in store
  {
    FreeFrom(store, p, 0)
  }

  /** `create_backup`: None for a missing file; otherwise the first free
      candidate name receives a copy, or None when the copy fails. */
  method CreateBackup(store: Store, path: Path, copyOk: bool)
    returns (backup: Option<Path>, store': Store)
    ensures path !in store ==> backup == None && store' == store
    ensures path in store && !copyOk ==> backup == None && store' == store
    ensures path in store && copyOk ==>
              backup == Some(BackupCandidate(path, FirstFreeIndex(store, path)))
    ensures backup.Some? ==> backup.value !in store && store' == store[backup.value := store[path]]
  {
    if path !in store {
      return None, store;
    }
    var backupPath := path + BackupSuffix;
    var counter := 1;
    while backupPath in store
      invariant counter >= 1
      invariant backupPath == BackupCandidate(path, counter - 1)
      invariant forall j :: 0 <= j < counter - 1 ==> BackupCandidate(path, j) in store
      decreases |store.Keys| - (counter - 1)
    {
      CandidatesBound(store, path, counter);
      backupPath := path + BackupSuffix + "." + NatToString(counter);
      counter := counter + 1;
    }
    if !copyOk {
      return None, store;
    }
    FirstFreeIsFirst(store, path, counter - 1);
    return Some(backupPath), store[backupPath := store[path]];
  }

  /** The first free index is unique. */
  lemma FirstFreeIsFirst(store: Store, p: Path, k: nat)
    requires BackupCandidate(p, k) !in store
    requires forall j :: 0 <= j < k ==> BackupCandidate(p, j) in store
    ensures k == FirstFreeIndex(store, p)
  {
    var r := FirstFreeIndex(store, p);
  }

  /** A second and third backup of the same file get `.backup.1` and
      `.backup.2`. */
  lemma BackupSequence(store: Store, p: Path)
    requires p in store && BackupCandidate(p, 0) in store
    requires BackupCandidate(p, 1) !in store && BackupCandidate(p, 2) !in store
    ensures FirstFreeIndex(store, p) == 1
    ensures var s1 := store[BackupCandidate(p, 1) := store[p]];
            FirstFreeIndex(s1, p) == 2
  {
    FirstFreeIsFirst(store, p, 1);
    var s1 := store[BackupCandidate(p, 1) := store[p]];
    BackupCandidateInjective(p, 2, 1);
    FirstFreeIsFirst(s1, p, 2);
  }

  // ---------------------------------------------------------------------
  // Confirmation and the gate

  /** `confirm_overwrite`: always yes when no confirmation is required;
      otherwise the answer, lower-cased then stripped, must be "y" or "yes".
      `None` for the answer stands for `input()` failing with no terminal,
      which raises. */
  function ConfirmOverwrite(cfg: SafetyConfig, answer: Option<string>): Option<bool> {
    if !cfg.requireConfirmation then Some(true)
    else match answer
      case None => None
      case Some(a) => var r := Strip(Lower(a)); Some(r == "y" || r == "yes")
  }

  /** Lower-casing never turns a space into a non-space or back. */
  lemma LowerKeepsSpace(c: char)
    ensures IsSpace(LowerChar(c)) <==> IsSpace(c)
  {
  }

  lemma {:induction false} LStripLower(s: string)
    ensures LStrip(Lower(s)) == Lower(LStrip(s))
  {
    if s != [] {
      LowerKeepsSpace(s[0]);
      assert Lower(s)[1..] == Lower(s[1..]);
      LStripLower(s[1..]);
    }
  }

  lemma LowerPrefix(s: string, n: nat)
    requires n <= |s|
    ensures Lower(s)[..n] == Lower(s[..n])
  {
  }

  lemma {:induction false} RStripLower(s: string)
    ensures RStrip(Lower(s)) == Lower(RStrip(s))
  {
    if s != [] {
      LowerKeepsSpace(s[|s| - 1]);
      LowerPrefix(s, |s| - 1);
      RStripLower(s[..|s| - 1]);
    }
  }

  /** Stripping and lower-casing commute, so the answer is accepted exactly
      when its stripped form is "y" or "yes" in any letter case. */
  lemma ConfirmIffAffirmative(cfg: SafetyConfig, a: string)
    requires cfg.requireConfirmation
    ensures ConfirmOverwrite(cfg, Some(a)) == Some(Lower(Strip(a)) in {"y", "yes"})
  {
    LStripLower(a);
    RStripLower(LStrip(a));
    var r := Lower(Strip(a));
    assert Strip(Lower(a)) == r;
    assert (r in {"y", "yes"}) == (r == "y" || r == "yes");
  }

  /** `safe_write_check` approves: no collision, and an existing target
      under `prevent_overwrite` is confirmed.  Neither the backup nor
      `check_hash` takes part. */
  predicate Approved(store: Store, digest: seq<byte> -> string, cfg: SafetyConfig,
                     source: Path, target: Path, answer: Option<string>)
  {
    && !DetectConversionCollision(store, digest, source, target)
    && (target in store && cfg.preventOverwrite ==> ConfirmOverwrite(cfg, answer) == Some(true))
  }

  /** The gate reaches the prompt and the prompt raises. */
  predicate PromptRaises(store: Store, digest: seq<byte> -> string, cfg: SafetyConfig,
                         source: Path, target: Path, answer: Option<string>)
  {
    && !DetectConversionCollision(store, digest, source, target)
    && target in store && cfg.preventOverwrite && ConfirmOverwrite(cfg, answer).None?
  }

  /** The name the next backup of `target` takes. */
  function NextBackup(store: Store, target: Path): Path {
    BackupCandidate(target, FirstFreeIndex(store, target))
  }

  /** No file changes, and the only name added is the next backup of an
      existing target, holding a copy of it. */
  predicate OnlyBackupAdded(store: Store, store': Store, target: Path) {
    && (forall p :: p in store ==> p in store' && store'[p] == store[p])
    && (forall p :: p in store' && p !in store ==>
          p == NextBackup(store, target) && target in store && store'[p] == store[target])
  }

  /** The write of a conversion: every file other than the target keeps
      its content, and the only names added are the target and its next
      backup. */
  predicate WriteFrame(store: Store, store': Store, target: Path) {
    && (forall p :: p in store && p != target ==> p in store' && store'[p] == store[p])
    && (forall p :: p in store' && p !in store ==> p == target || p == NextBackup(store, target))
  }

  /** Writing the target after a gate that added at most a backup keeps
      to the write frame. */
  lemma WriteAfterGate(store: Store, s1: Store, target: Path, content: seq<byte>)
    requires OnlyBackupAdded(store, s1, target)
    ensures WriteFrame(store, s1[target := content], target)
  {
  }

  function CollisionReason(target: Path): string {
    "Collision detected: " + target + " exists with different content"
  }

  /** `safe_write_check`, in its fixed order: collision, confirmation, then
      the backup.  A `None` verdict is the exception raised by a prompt
      with no terminal. */
  method SafeWriteCheck(store: Store, digest: seq<byte> -> string, cfg: SafetyConfig,
                        source: Path, target: Path, answer: Option<string>, copyOk: bool)
    returns (verdict: Option<Verdict>, backup: Option<Path>, store': Store)
    ensures DetectConversionCollision(store, digest, source, target) ==>
              verdict == Some(Verdict(false, CollisionReason(target)))
    ensures verdict.None? <==> PromptRaises(store, digest, cfg, source, target, answer)
    ensures verdict == Some(Verdict(true, "Safe to proceed")) <==>
              Approved(store, digest, cfg, source, target, answer)
    ensures verdict.Some? && verdict.value.canProceed ==> verdict.value.reason == "Safe to proceed"
    ensures verdict.Some? && !verdict.value.canProceed ==>
              verdict.value.reason == (if DetectConversionCollision(store, digest, source, target)
                                       then CollisionReason(target) else "User cancelled overwrite")
    ensures target !in store ==> verdict == Some(Verdict(true, "Safe to proceed")) && store' == store
    ensures if Approved(store, digest, cfg, source, target, answer) && target in store && cfg.createBackup
            then (copyOk ==> backup == Some(BackupCandidate(target, FirstFreeIndex(store, target))))
                 && (!copyOk ==> backup == None)
                 && (backup.Some? ==> backup.value !in store && store' == store[backup.value := store[target]])
                 && (backup.None? ==> store' == store)
            else backup == None && store' == store
    ensures OnlyBackupAdded(store, store', target)
  {
    backup, store' := None, store;
    if DetectConversionCollision(store, digest, source, target) {
      return Some(Verdict(false, CollisionReason(target))), backup, store';
    }
    if target in store {
      if cfg.preventOverwrite {
        var confirmed := ConfirmOverwrite(cfg, answer);
        if confirmed.None? {
          return None, backup, store';
        }
        if !confirmed.value {
          return Some(Verdict(false, "User cancelled overwrite")), backup, store';
        }
      }
      if cfg.createBackup {
        backup, store' := CreateBackup(store, target, copyOk);
      }
    }
    return Some(Verdict(true, "Safe to proceed")), backup, store';
  }
}

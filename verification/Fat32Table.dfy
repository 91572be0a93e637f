/** FAT32 table on values: the entry codec, the walk along cluster chains and the
    effect of freeing a chain. Entries follow the Microsoft FAT32 File System
    Specification 1.03, section "FAT Data Structure". */
module Fat32Table {
  import opened Storage
  import opened Wrappers

  const FREE: nat := 0
  /** Values from here on are markers, not clusters. */
  const MARKERS: nat := 0x0FFF_FFF0
  const EOF: nat := 0x0FFF_FFF8
  const ENTRY_LIMIT: nat := 0x1000_0000

  /** A data cluster number rather than a marker. */
  predicate IsValid(cluster: nat) { 2 <= cluster < MARKERS }

  // --------------------------------------------------------- entry codec

  /** Little-endian 32-bit value with the top four bits masked off. */
  function Decode(b0: byte, b1: byte, b2: byte, b3: byte): nat {
    (b0 + 0x100 * b1 + 0x1_0000 * b2 + 0x100_0000 * b3) % 0x1000_0000
  }

  /** The four bytes written for an entry. */
  function Encode(value: nat): seq<byte> {
    var v := value % 0x1000_0000;
    [v % 0x100, v / 0x100 % 0x100, v / 0x1_0000 % 0x100, v / 0x100_0000]
  }

  lemma EncodeDecode(value: nat)
    ensures var b := Encode(value); Decode(b[0], b[1], b[2], b[3]) == value % 0x1000_0000
  {
    var v := value % 0x1000_0000;
    assert v == v % 0x100 + 0x100 * (v / 0x100);
    var w := v / 0x100;
    assert w == w % 0x100 + 0x100 * (w / 0x100);
    var u := w / 0x100;
    assert u == u % 0x100 + 0x100 * (u / 0x100);
    assert v / 0x1_0000 == u && v / 0x100_0000 == u / 0x100;
  }

  /** An entry is the low 28 bits of a little-endian 32-bit number. */
  lemma DecodeIsLittleEndian(b0: byte, b1: byte, b2: byte, b3: byte)
    ensures Decode(b0, b1, b2, b3) == LittleEndian([b0, b1, b2, b3]) % 0x1000_0000
  {
    LittleEndian4([b0, b1, b2, b3]);
  }

  lemma EncodeIsLittleEndian(value: nat)
    ensures |Encode(value)| == 4 && LittleEndian(Encode(value)) == value % 0x1000_0000
  {
    var b := Encode(value);
    LittleEndian4(b);
    var v := value % 0x1000_0000;
    assert v == b[0] as int + 0x100 * (v / 0x100);
    assert v / 0x100 == b[1] as int + 0x100 * (v / 0x1_0000);
    assert v / 0x1_0000 == b[2] as int + 0x100 * (b[3] as int);
  }

  /** What a free entry and the end of a chain look like on disk; neither is followed. */
  lemma MarkersAre()
    ensures Encode(FREE) == [0, 0, 0, 0] && Encode(EOF) == [0xF8, 0xFF, 0xFF, 0x0F]
    ensures !IsValid(FREE) && !IsValid(EOF)
  {
  }

  // -------------------------------------------------------- counting FREE

  function CountFree(fat: seq<nat>): (n: nat)
    ensures n <= |fat|
  {
    if fat == [] then 0
    else CountFree(fat[..|fat| - 1]) + (if fat[|fat| - 1] == FREE then 1 else 0)
  }

  lemma {:induction false} CountFreeUpdate(fat: seq<nat>, i: nat, v: nat)
    requires i < |fat|
    ensures CountFree(fat[i := v]) + (if fat[i] == FREE then 1 else 0)
         == CountFree(fat) + (if v == FREE then 1 else 0)
  {
    var n := |fat| - 1;
    if i < n {
      CountFreeUpdate(fat[..n], i, v);
      assert fat[i := v][..n] == fat[..n][i := v];
    } else {
      assert fat[i := v][..n] == fat[..n];
    }
  }

  ghost function FreePlaces(fat: seq<nat>): set<nat> { set i: nat | i < |fat| && fat[i] == 0 }

  /** The count is the number of entries that are zero. */
  lemma {:induction false} CountFreeIs(fat: seq<nat>)
    ensures CountFree(fat) == |FreePlaces(fat)|
  {
    if fat != [] {
      var n := |fat| - 1;
      CountFreeIs(fat[..n]);
      assert FreePlaces(fat) == if fat[n] == 0 then FreePlaces(fat[..n]) + {n} else FreePlaces(fat[..n]);
    }
  }

  // ------------------------------------------------------- freeing a chain

  datatype Freed = Freed(fat: seq<nat>, count: nat, result: FsResult<()>)

  /** Table, number of entries released and outcome of freeing from `start`. */
  function FreeChain(fat: seq<nat>, start: nat): (r: Freed)
    ensures |r.fat| == |fat|
    decreases |fat| - CountFree(fat), if IsValid(start) then 1 else 0
  {
    if !IsValid(start) then Freed(fat, 0, Ok(()))
    else if start >= |fat| then Freed(fat, 0, Err(InvalidArgument))
    else
      CountFreeUpdate(fat, start, FREE);
      var rest := FreeChain(fat[start := FREE], fat[start]);
      rest.(count := rest.count + 1)
  }

  /** `s` lists distinct linked clusters from `start`, each of them in use, and
      the walk leaves the table after the last one. */
  ghost predicate InUsePath(fat: seq<nat>, start: nat, s: seq<nat>)
    decreases |s|
  {
    if s == [] then !IsValid(start) || start >= |fat|
    else
      && s[0] == start && IsValid(start) && start < |fat|
      && fat[start] != FREE && start !in s[1..]
      && InUsePath(fat, fat[start], s[1..])
  }

  ghost predicate WellFormedChain(fat: seq<nat>, start: nat) {
    exists s :: InUsePath(fat, start, s)
  }

  /** Where the walk ends up: the first value that is not a cluster of the path. */
  ghost function PathEnd(fat: seq<nat>, start: nat, s: seq<nat>): nat
    requires InUsePath(fat, start, s)
    decreases |s|
  {
    if s == [] then start else PathEnd(fat, fat[start], s[1..])
  }

  lemma {:induction false} PathIgnores(fat: seq<nat>, start: nat, s: seq<nat>, i: nat, v: nat)
    requires i < |fat| && i !in s
    ensures InUsePath(fat[i := v], start, s) <==> InUsePath(fat, start, s)
    decreases |s|
  {
    if s != [] && s[0] == start && start < |fat| {
      PathIgnores(fat, fat[start], s[1..], i, v);
    }
  }

  lemma {:induction false} PathEndIgnores(fat: seq<nat>, start: nat, s: seq<nat>, i: nat, v: nat)
    requires i < |fat| && i !in s && InUsePath(fat, start, s)
    ensures InUsePath(fat[i := v], start, s) && PathEnd(fat[i := v], start, s) == PathEnd(fat, start, s)
    decreases |s|
  {
    PathIgnores(fat, start, s, i, v);
    if s != [] {
      PathEndIgnores(fat, fat[start], s[1..], i, v);
    }
  }

  lemma {:induction false} PathMembersInUse(fat: seq<nat>, start: nat, s: seq<nat>, c: nat)
    requires InUsePath(fat, start, s) && c in s
    ensures c < |fat| && IsValid(c) && fat[c] != FREE
    decreases |s|
  {
    if c != s[0] {
      PathMembersInUse(fat, fat[start], s[1..], c);
    }
  }

  /** Freeing a well-formed chain releases exactly its clusters. */
  lemma {:induction false} FreeChainFreesExactly(fat: seq<nat>, start: nat, s: seq<nat>)
    requires InUsePath(fat, start, s)
    ensures FreeChain(fat, start).count == |s|
    ensures FreeChain(fat, start).result == if IsValid(PathEnd(fat, start, s)) then Err(InvalidArgument) else Ok(())
    ensures forall i :: 0 <= i < |fat| ==> FreeChain(fat, start).fat[i] == if i in s then FREE else fat[i]
    ensures CountFree(FreeChain(fat, start).fat) == CountFree(fat) + |s|
    decreases |s|
  {
    if s != [] {
      var t := fat[start := FREE];
      PathIgnores(fat, fat[start], s[1..], start, FREE);
      PathEndIgnores(fat, fat[start], s[1..], start, FREE);
      FreeChainFreesExactly(t, fat[start], s[1..]);
      CountFreeUpdate(fat, start, FREE);
      assert forall i :: 0 <= i < |fat| ==> (i in s <==> i == start || i in s[1..]);
    }
  }

  /** The free counter can drift from the table by at most one, and stays exact
      if and only if the chain is acyclic and in use all the way. */
  lemma {:induction false} CounterExactIff(fat: seq<nat>, start: nat)
    ensures var r := FreeChain(fat, start);
            && CountFree(r.fat) <= CountFree(fat) + r.count <= CountFree(r.fat) + 1
            && (CountFree(r.fat) == CountFree(fat) + r.count <==> WellFormedChain(fat, start))
    decreases |fat| - CountFree(fat), if IsValid(start) then 1 else 0
  {
    if !IsValid(start) || start >= |fat| {
      assert InUsePath(fat, start, []);
      assert WellFormedChain(fat, start);
    } else {
      var t := fat[start := FREE];
      CountFreeUpdate(fat, start, FREE);
      CounterExactIff(t, fat[start]);
      if fat[start] == FREE {
        assert FreeChain(t, FREE).count == 0;
        NoPathFromFree(fat, start);
      } else {
        PathExtends(fat, start);
      }
    }
  }

  /** A cluster linked to itself is freed once and counted twice. */
  lemma SelfLinkedCounter()
    ensures var fat: seq<nat> := [EOF, EOF, 2];
            var r := FreeChain(fat, 2);
            && CountFree(fat) == 0 && CountFree(r.fat) == 1 && r.count == 2 && r.result == Ok(())
            && !WellFormedChain(fat, 2)
  {
    var fat: seq<nat> := [EOF, EOF, 2];
    var t := fat[2 := FREE];
    assert FreeChain(t[2 := FREE], FREE) == Freed(t, 0, Ok(())) by { assert t[2 := FREE] == t; }
    assert FreeChain(t, 2).count == 1 && FreeChain(t, 2).fat == t;
    assert FreeChain(fat, 2).count == 2 && FreeChain(fat, 2).fat == t;
    assert fat[..2] == [EOF, EOF] && [EOF, EOF][..1] == [EOF] && [EOF][..0] == [];
    assert CountFree([EOF]) == 0 && CountFree([EOF, EOF]) == 0;
    assert t[..2] == [EOF, EOF];
    CounterExactIff(fat, 2);
  }

  lemma NoPathFromFree(fat: seq<nat>, start: nat)
    requires IsValid(start) && start < |fat| && fat[start] == FREE
    ensures !WellFormedChain(fat, start)
  {
  }

  lemma PathExtends(fat: seq<nat>, start: nat)
    requires IsValid(start) && start < |fat| && fat[start] != FREE
    ensures WellFormedChain(fat, start) <==> WellFormedChain(fat[start := FREE], fat[start])
  {
    var t := fat[start := FREE];
    if s :| InUsePath(fat, start, s) {
      PathIgnores(fat, fat[start], s[1..], start, FREE);
      assert InUsePath(t, fat[start], s[1..]);
    }
    if s :| InUsePath(t, fat[start], s) {
      if start in s {
        PathMembersInUse(t, fat[start], s, start);
      }
      PathIgnores(fat, fat[start], s, start, FREE);
      assert ([start] + s)[1..] == s;
      assert InUsePath(fat, start, [start] + s);
    }
  }

  // ---------------------------------------------------- a volume of chains

  /** A file's chain: in use throughout and closed by a marker. */
  ghost predicate FileChain(fat: seq<nat>, s: seq<nat>) {
    s != [] && InUsePath(fat, s[0], s) && !IsValid(PathEnd(fat, s[0], s))
  }

  ghost predicate Apart(files: seq<seq<nat>>) {
    forall j, k, c :: 0 <= j < k < |files| && c in files[j] ==> c !in files[k]
  }

  /** All files' chains are well formed and share no cluster. */
  ghost predicate Volume(fat: seq<nat>, files: seq<seq<nat>>) {
    Apart(files) && forall k :: 0 <= k < |files| ==> FileChain(fat, files[k])
  }

  predicate LowestFree(fat: seq<nat>, c: nat) {
    2 <= c < |fat| && fat[c] == FREE && forall i :: 2 <= i < c ==> fat[i] != FREE
  }

  lemma ChainAvoidsFree(fat: seq<nat>, s: seq<nat>, c: nat)
    requires FileChain(fat, s) && c < |fat| && fat[c] == FREE
    ensures c !in s && FileChain(fat[c := EOF], s)
  {
    if c in s {
      PathMembersInUse(fat, s[0], s, c);
    }
    PathEndIgnores(fat, s[0], s, c, EOF);
  }

  /** Claiming a free cluster starts a one-cluster chain beside all others, unless its
      number is taken for a marker. */
  lemma AllocateKeepsVolume(fat: seq<nat>, files: seq<seq<nat>>, c: nat)
    requires Volume(fat, files) && LowestFree(fat, c)
    ensures forall k :: 0 <= k < |files| ==> c !in files[k]
    ensures Volume(fat[c := EOF], files + [[c]]) <==> c < 0x0FFF_FFF0
    ensures CountFree(fat[c := EOF]) == CountFree(fat) - 1
  {
    forall k | 0 <= k < |files|
      ensures c !in files[k] && FileChain(fat[c := EOF], files[k])
    {
      ChainAvoidsFree(fat, files[k], c);
    }
    CountFreeUpdate(fat, c, EOF);
    if c < MARKERS {
      SingleCluster(fat[c := EOF], c);
    } else {
      assert !FileChain(fat[c := EOF], (files + [[c]])[|files|]);
    }
  }

  /** A cluster whose number is taken for a marker cannot be given back. */
  lemma MarkerClusterLeaks(fat: seq<nat>, c: nat)
    requires LowestFree(fat, c) && c >= MARKERS
    ensures FreeChain(fat[c := EOF], c) == Freed(fat[c := EOF], 0, Ok(()))
    ensures CountFree(FreeChain(fat[c := EOF], c).fat) == CountFree(fat) - 1
  {
    CountFreeUpdate(fat, c, EOF);
  }

  lemma SingleCluster(fat: seq<nat>, c: nat)
    requires c < |fat| && IsValid(c) && fat[c] == EOF
    ensures FileChain(fat, [c])
  {
    assert [c][1..] == [];
    assert InUsePath(fat, EOF, []) && PathEnd(fat, EOF, []) == EOF;
    assert InUsePath(fat, c, [c]) && PathEnd(fat, c, [c]) == EOF;
  }

  /** Freeing one file frees its clusters and leaves every other chain alone. */
  lemma FreeKeepsVolume(fat: seq<nat>, files: seq<seq<nat>>, k: nat)
    requires Volume(fat, files) && k < |files|
    ensures var r := FreeChain(fat, files[k][0]);
            && r.result == Ok(())
            && Volume(r.fat, files[..k] + files[k + 1..])
            && r.count == |files[k]|
            && CountFree(r.fat) == CountFree(fat) + |files[k]|
  {
    var r := FreeChain(fat, files[k][0]);
    FreeChainFreesExactly(fat, files[k][0], files[k]);
    forall j | 0 <= j < |files| && j != k
      ensures FileChain(r.fat, files[j])
    {
      PathFrame(fat, r.fat, files[j][0], files[j]);
    }
    ApartWithout(files, k);
  }

  lemma ApartWithout(files: seq<seq<nat>>, k: nat)
    requires Apart(files) && k < |files|
    ensures Apart(files[..k] + files[k + 1..])
  {
  }

  lemma {:induction false} PathFrame(fat: seq<nat>, g: seq<nat>, start: nat, s: seq<nat>)
    requires InUsePath(fat, start, s) && |g| == |fat|
    requires forall c :: c in s && c < |fat| ==> g[c] == fat[c]
    ensures InUsePath(g, start, s) && PathEnd(g, start, s) == PathEnd(fat, start, s)
    decreases |s|
  {
    if s != [] {
      PathFrame(fat, g, fat[start], s[1..]);
    }
  }

  // ---------------------------------------------------------- whole runs

  datatype VolumeState = VolumeState(fat: seq<nat>, counter: nat, files: seq<seq<nat>>)

  datatype VolumeOp = Allocate(cluster: nat) | Full | Free(file: nat)

  /** One `allocate_cluster` below the markers or one `free_cluster_chain` on a file's
      first cluster. */
  ghost predicate VolumeStep(s: VolumeState, op: VolumeOp, t: VolumeState) {
    match op
    case Allocate(c) =>
      && LowestFree(s.fat, c) && IsValid(c)
      && t == VolumeState(s.fat[c := EOF], if s.counter == 0 then 0 else s.counter - 1, s.files + [[c]])
    case Full => t == s
    case Free(k) =>
      && k < |s.files| && s.files[k] != []
      && var r := FreeChain(s.fat, s.files[k][0]);
         t == VolumeState(r.fat, s.counter + r.count, s.files[..k] + s.files[k + 1..])
  }

  ghost predicate VolumeSteps(s: VolumeState, t: VolumeState) {
    exists op :: VolumeStep(s, op, t)
  }

  ghost predicate VolumeRun(trace: seq<VolumeState>) {
    |trace| > 0 && forall i :: 0 <= i < |trace| - 1 ==> VolumeSteps(trace[i], trace[i + 1])
  }

  ghost function ClustersInUse(files: seq<seq<nat>>): nat {
    if files == [] then 0 else |files[0]| + ClustersInUse(files[1..])
  }

  lemma {:induction false} InUseConcat(a: seq<seq<nat>>, b: seq<seq<nat>>)
    ensures ClustersInUse(a + b) == ClustersInUse(a) + ClustersInUse(b)
  {
    if a == [] {
      assert a + b == b;
    } else {
      InUseConcat(a[1..], b);
      assert (a + b)[1..] == a[1..] + b;
    }
  }

  lemma InUseWithout(files: seq<seq<nat>>, k: nat)
    requires k < |files|
    ensures ClustersInUse(files) == ClustersInUse(files[..k] + files[k + 1..]) + |files[k]|
  {
    assert files == files[..k] + ([files[k]] + files[k + 1..]);
    InUseConcat(files[..k], [files[k]] + files[k + 1..]);
    InUseConcat([files[k]], files[k + 1..]);
    assert ClustersInUse([files[k]]) == |files[k]| + ClustersInUse([]);
    InUseConcat(files[..k], files[k + 1..]);
  }

  lemma VolumeStepKeeps(s: VolumeState, t: VolumeState)
    requires Volume(s.fat, s.files) && s.counter == CountFree(s.fat) && VolumeSteps(s, t)
    ensures Volume(t.fat, t.files) && t.counter == CountFree(t.fat)
    ensures t.counter + ClustersInUse(t.files) == s.counter + ClustersInUse(s.files)
  {
    var op :| VolumeStep(s, op, t);
    match op {
      case Allocate(c) =>
        AllocateKeepsVolume(s.fat, s.files, c);
        InUseConcat(s.files, [[c]]);
        assert ClustersInUse([[c]]) == 1 + ClustersInUse([]);
      case Full =>
      case Free(k) =>
        FreeKeepsVolume(s.fat, s.files, k);
        InUseWithout(s.files, k);
    }
  }

  /** Clusters are conserved: in every run chains stay well formed and disjoint,
      the counter stays exact, and free plus owned clusters never change. */
  lemma {:induction false} VolumeConserved(trace: seq<VolumeState>, i: nat)
    requires VolumeRun(trace) && i < |trace|
    requires Volume(trace[0].fat, trace[0].files) && trace[0].counter == CountFree(trace[0].fat)
    ensures Volume(trace[i].fat, trace[i].files) && trace[i].counter == CountFree(trace[i].fat)
    ensures trace[i].counter + ClustersInUse(trace[i].files) == trace[0].counter + ClustersInUse(trace[0].files)
  {
    if i > 0 {
      VolumeConserved(trace, i - 1);
      var j := i - 1;
      assert VolumeSteps(trace[j], trace[j + 1]);
      VolumeStepKeeps(trace[j], trace[i]);
    }
  }
}

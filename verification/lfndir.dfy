/** `AkaiFatLfnDirectory`: a directory seen through its names.  The table
    below lists real entries and long-name slots; this layer groups them
    into named entries, keeps an index from lower-case name to entry and a
    set of the names in use, and writes the table back as one real entry
    per indexed name, in the index's key order. */
module LfnDirectory {
  import opened Wrappers
  import opened Bytes
  import StrUtil
  import ShortName
  import FsObject
  import DirEntry
  import Directory
  import Fat
  import ClusterChain
  import ByteBuffer
  import Device
  import FatFile
  import LfnEntry
  import ChainDirectory
  import RootDirectory

  type Id = Directory.Id

  /** The directory: its table, `akaiNameIndex` (lower-case name to named
      entry), `usedAkaiNames`, the real entries `entryToFile` and
      `entryToDirectory` hold objects for, and its own flags.
      `clusterSize` and `dataOffset` are those of the chains its FAT
      opens. */
  datatype LfnDir = LfnDir(dir: Directory.Dir, index: map<Str, LfnEntry.Named>, used: set<Str>,
                           files: map<Id, FatFile.File>, dirs: set<Id>, obj: FsObject.Flags,
                           clusterSize: int, dataOffset: int)

  /** `StrUtil::to_lower_copy`. */
  function Lower(s: Str): (r: Str)
    ensures |r| == |s|
  {
    StrUtil.ToLower(s)
  }

  /** Lower-casing twice is lower-casing once. */
  lemma LowerIdempotent(s: Str)
    ensures Lower(Lower(s)) == Lower(s)
  {
    assert forall i :: 0 <= i < |s| ==> Lower(Lower(s))[i] == Lower(s)[i];
  }

  /** Every key is the lower-case form of its entry's name. */
  predicate Indexed(d: LfnDir)
  {
    forall k :: k in d.index ==> Lower(d.index[k].fileName) == k
  }

  /** The names in use are exactly the index's keys: what the scan builds,
      and what registering every added or linked name would keep. */
  predicate Tracked(d: LfnDir)
  {
    d.index.Keys == d.used
  }

  /** Every name in use is indexed: what the directory keeps as written,
      where adding or linking indexes a name without putting it in use,
      and unlinking takes a name out of both. */
  predicate Covered(d: LfnDir)
  {
    d.used <= d.index.Keys
  }

  /** Every indexed entry's real entry is in the store. */
  predicate Linked(d: LfnDir, s: Directory.Store)
  {
    forall k :: k in d.index ==> d.index[k].realEntry in s.cells
  }

  /** What flushing needs of the directory besides its names: a table the
      flush buffer can hold, and a cluster size a chain can work with. */
  predicate Sound(d: LfnDir, s: Directory.Store)
  {
    && Linked(d, s) && |d.dir.volumeLabel| <= DirEntry.MAX_LABEL_LENGTH
    && 0 <= d.dir.capacity && (d.dir.capacity + 1) * DirEntry.SIZE <= INT_MAX
    && (d.dir.backend.ChainStore? ==> 0 < d.dir.backend.chain.clusterSize <= 0x100_0000)
  }

  // ------------------------------------------------------------ names

  /** `isFreeName(name)`: only `usedAkaiNames` is consulted. */
  function IsFreeName(d: LfnDir, name: Str): (b: bool)
    ensures b <==> forall k :: k in d.used ==> k != Lower(name)
  {
    Lower(name) !in d.used
  }

  /** `checkUniqueName(name)`: a name in use is refused; the set itself is
      left as it was. */
  function CheckUniqueName(d: LfnDir, name: Str): (r: Result<()>)
    ensures r.Ok? <==> IsFreeName(d, name)
    ensures r.Err? ==> r.fault == NameInUse
  {
    if Lower(name) in d.used then Err(NameInUse) else Ok(())
  }

  /** A name differing only in case from a name in use is not free. */
  lemma CaseBlindNames(d: LfnDir, a: Str, b: Str)
    requires Lower(a) == Lower(b)
    ensures IsFreeName(d, a) == IsFreeName(d, b)
    ensures CheckUniqueName(d, a) == CheckUniqueName(d, b)
  {
  }

  /** `getEntry(name)` as written: the entry is looked up under the lower
      case name only when the name itself is a key, so a name with an
      upper-case letter is never found. */
  function GetEntryAsWritten(d: LfnDir, name: Str): (r: Option<LfnEntry.Named>)
    requires Indexed(d)
    ensures r.Some? <==> name in d.index
    ensures r.Some? ==> r.value == d.index[name] && Lower(name) == name
  {
    if name !in d.index then None
    else
      LowerIdempotent(d.index[name].fileName);
      Some(d.index[Lower(name)])
  }

  /** The lookup the rest of the model uses: by the lower-case name. */
  function GetEntry(d: LfnDir, name: Str): (r: Option<LfnEntry.Named>)
    ensures r.Some? <==> Lower(name) in d.index
    ensures r.Some? ==> r.value == d.index[Lower(name)]
  {
    if Lower(name) in d.index then Some(d.index[Lower(name)]) else None
  }

  /** The two lookups differ on every spelling of an indexed name that is
      not already lower case: the one as written misses it, the corrected
      one finds the entry. */
  lemma GetEntryMissesCase(d: LfnDir, name: Str)
    requires Indexed(d) && Lower(name) in d.index && Lower(name) != name
    ensures GetEntryAsWritten(d, name) == None
    ensures GetEntry(d, name) == Some(d.index[Lower(name)])
  {
    if name in d.index {
      LowerIdempotent(d.index[name].fileName);
    }
  }

  /** The two lookups agree on lower-case names. */
  lemma GetEntryAgreesOnLowerCase(d: LfnDir, name: Str)
    requires Indexed(d) && Lower(name) == name
    ensures GetEntryAsWritten(d, name) == GetEntry(d, name)
  {
  }

  // ------------------------------------------------------------ parsing

  /** An entry the scan steps over: its short name reads as the empty
      text. */
  predicate Blank(e: DirEntry.Entry)
  {
    DirEntry.GetShortName(e).Ok? && ShortName.AsSimpleString(DirEntry.GetShortName(e).value) == []
  }

  /** The first inner loop of `parseLfn`: from `i`, past the blank entries.
      `getShortName` of an entry starting with 0 throws, and the throw ends
      the scan. */
  function SkipBlank(s: Directory.Store, ids: seq<Id>, i: nat): (r: Result<nat>)
    requires Directory.Holds(s, ids) && i <= |ids|
    ensures r.Ok? ==> i <= r.value <= |ids| && (r.value < |ids| ==> !Blank(s.cells[ids[r.value]]))
    ensures r.Ok? ==> forall j :: i <= j < r.value ==> Blank(s.cells[ids[j]])
    ensures r.Ok? ==> r.value == |ids| || DirEntry.GetShortName(s.cells[ids[r.value]]).Ok?
    ensures r.Err? ==> r.fault == BadNameLength
    decreases |ids| - i
  {
    if i == |ids| then Ok(i)
    else
      var e := s.cells[ids[i]];
      if DirEntry.GetShortName(e).Err? then Err(DirEntry.GetShortName(e).fault)
      else if Blank(e) then SkipBlank(s, ids, i + 1)
      else Ok(i)
  }

  /** The second inner loop: from `i`, past the long-name slots. */
  function RunEnd(s: Directory.Store, ids: seq<Id>, i: nat): (j: nat)
    requires Directory.Holds(s, ids) && i <= |ids|
    ensures i <= j <= |ids| && (j < |ids| ==> !DirEntry.IsLfnEntry(s.cells[ids[j]]))
    ensures forall m :: i <= m < j ==> DirEntry.IsLfnEntry(s.cells[ids[m]])
    decreases |ids| - i
  {
    if i == |ids| || !DirEntry.IsLfnEntry(s.cells[ids[i]]) then i else RunEnd(s, ids, i + 1)
  }

  /** The entries `ids[start..end]`, both ends included. */
  function Group(s: Directory.Store, ids: seq<Id>, start: nat, end: nat): (g: seq<DirEntry.Entry>)
    requires Directory.Holds(s, ids) && start <= end < |ids|
    ensures |g| == end + 1 - start && g[|g| - 1] == s.cells[ids[end]]
    ensures forall j :: 0 <= j < |g| ==> g[j] == s.cells[ids[start + j]]
  {
    seq(end + 1 - start, j requires 0 <= j < end + 1 - start => s.cells[ids[start + j]])
  }

  /** The named entry `extract` builds in this directory: it takes the
      directory's read-only flag. */
  function Found(d: LfnDir, name: Str, realEntry: Id): LfnEntry.Named
  {
    LfnEntry.Named(name, realEntry, FsObject.Create(d.obj.readOnly))
  }

  /** The registration step of `parseLfn`: a name already in use is
      refused, otherwise it goes into both the used set and the index. */
  function Register(d: LfnDir, name: Str, realEntry: Id): (r: Result<LfnDir>)
    ensures r.Err? <==> Lower(name) in d.used
    ensures r.Err? ==> r.fault == NameInUse
    ensures r.Ok? ==> r.value == d.(index := d.index[Lower(name) := Found(d, name, realEntry)], used := d.used + {Lower(name)})
  {
    var _ :- CheckUniqueName(d, name);
    Ok(d.(index := d.index[Lower(name) := Found(d, name, realEntry)], used := d.used + {Lower(name)}))
  }

  /** The next group of `parseLfn` from position `i`: blank entries are
      skipped, a run of long-name slots is grouped with the entry after
      it, and the group's name is extracted.  `None` when the table ends
      first, including a run of slots that reaches the end of the table.
      `ws` and `wsCopy` are the character sets the name trims strip. */
  function NextGroup(s: Directory.Store, ids: seq<Id>, i: nat, ws: set<Char8>, wsCopy: set<Char8>)
    : (r: Result<Option<(nat, Str)>>)
    requires Directory.Holds(s, ids) && i <= |ids|
    ensures r.Ok? && r.value.Some? ==> var end := r.value.value.0;
              i <= end < |ids| && !DirEntry.IsLfnEntry(s.cells[ids[end]])
  {
    var start :- SkipBlank(s, ids, i);
    if start == |ids| then Ok(None)
    else
      var end := RunEnd(s, ids, start);
      if end == |ids| then Ok(None)
      else
        var name :- LfnEntry.Extract(Group(s, ids, start, end), ws, wsCopy);
        Ok(Some((end, name)))
  }

  /** A real entry `parseLfn` registers: listed from position `i` on and
      not deleted, and named by the entry object `extract` builds. */
  predicate Registered(d: LfnDir, s: Directory.Store, i: nat, n: LfnEntry.Named)
  {
    && i <= |d.dir.entries| && n.realEntry in d.dir.entries[i..] && n.realEntry in s.cells
    && !DirEntry.IsDeleted(s.cells[n.realEntry]) && !DirEntry.IsLfnEntry(s.cells[n.realEntry])
    && n.obj == FsObject.Create(d.obj.readOnly)
  }

  /** `e` is `d` with names added by the scan from position `i`: the old
      names keep their entries, and both invariants hold. */
  predicate Extends(d: LfnDir, e: LfnDir, s: Directory.Store, i: nat)
  {
    && Tracked(e) && Indexed(e)
    && e == d.(index := e.index, used := e.used)
    && (forall k :: k in d.index ==> k in e.index && e.index[k] == d.index[k])
    && (forall k :: k in e.index && k !in d.index ==> Registered(d, s, i, e.index[k]))
  }

  /** `parseLfn()` from table position `i`.  A name whose real entry is not
      deleted is registered, and a name already in use ends the scan with
      a failure. */
  function Parse(d: LfnDir, s: Directory.Store, i: nat, ws: set<Char8>, wsCopy: set<Char8>): (r: Result<LfnDir>)
    requires Directory.Holds(s, d.dir.entries) && i <= |d.dir.entries|
    requires Tracked(d) && Indexed(d)
    ensures r.Ok? ==> Extends(d, r.value, s, i)
    decreases |d.dir.entries| - i, 1
  {
    match NextGroup(s, d.dir.entries, i, ws, wsCopy)
    case Err(e) => Err(e)
    case Ok(None) => Ok(d)
    case Ok(Some((end, name))) => ParseGroup(d, s, i, end, name, ws, wsCopy)
  }

  /** The scan after extracting `name` from the group ending at `end`. */
  function ParseGroup(d: LfnDir, s: Directory.Store, i: nat, end: nat, name: Str, ws: set<Char8>, wsCopy: set<Char8>)
    : (r: Result<LfnDir>)
    requires Directory.Holds(s, d.dir.entries) && i <= end < |d.dir.entries|
    requires !DirEntry.IsLfnEntry(s.cells[d.dir.entries[end]])
    requires Tracked(d) && Indexed(d)
    ensures r.Ok? ==> Extends(d, r.value, s, i)
    decreases |d.dir.entries| - end, 0
  {
    var id := d.dir.entries[end];
    if DirEntry.IsDeleted(s.cells[id]) then
      var r := Parse(d, s, end + 1, ws, wsCopy);
      RegisteredLater(d, d, s, i, end + 1);
      r
    else
      match Register(d, name, id)
      case Err(e) => Err(e)
      case Ok(d1) =>
        LowerIdempotent(name);
        var r := Parse(d1, s, end + 1, ws, wsCopy);
        RegisterStep(d, d1, r, s, i, end, name);
        r
  }

  /** One registration, then the rest of the scan. */
  lemma RegisterStep(d: LfnDir, d1: LfnDir, r: Result<LfnDir>, s: Directory.Store, i: nat, end: nat, name: Str)
    requires Tracked(d) && Indexed(d) && i <= end < |d.dir.entries| && d.dir.entries[end] in s.cells
    requires !DirEntry.IsDeleted(s.cells[d.dir.entries[end]]) && !DirEntry.IsLfnEntry(s.cells[d.dir.entries[end]])
    requires Register(d, name, d.dir.entries[end]) == Ok(d1) && (r.Ok? ==> Extends(d1, r.value, s, end + 1))
    ensures r.Ok? ==> Extends(d, r.value, s, i)
  {
    if r.Ok? {
      RegisteredLater(d, d1, s, i, end + 1);
      assert d.dir.entries[i..][end - i] == d.dir.entries[end];
      assert Registered(d, s, i, d1.index[Lower(name)]);
    }
  }

  /** What is registered from a later position, in a directory differing
      only in its names, is registered from an earlier one. */
  lemma RegisteredLater(d: LfnDir, d1: LfnDir, s: Directory.Store, i: nat, j: nat)
    requires i <= j <= |d.dir.entries| && d1.dir == d.dir && d1.obj == d.obj
    ensures forall n :: Registered(d1, s, j, n) ==> Registered(d, s, i, n)
  {
    forall n | Registered(d1, s, j, n) ensures Registered(d, s, i, n) {
      var k :| j <= k < |d.dir.entries| && d.dir.entries[k] == n.realEntry;
      assert d.dir.entries[i..][k - i] == n.realEntry;
    }
  }

  /** The constructor: an empty index and used set, then `parseLfn`. */
  function Open(dir: Directory.Dir, s: Directory.Store, readOnly: bool, clusterSize: int, dataOffset: int,
                ws: set<Char8>, wsCopy: set<Char8>): (r: Result<LfnDir>)
    requires Directory.Holds(s, dir.entries)
    ensures r.Ok? ==> Tracked(r.value) && Indexed(r.value) && Linked(r.value, s)
    ensures r.Ok? ==> && r.value.dir == dir && r.value.files == map[] && r.value.dirs == {}
                      && r.value.obj == FsObject.Create(readOnly)
                      && r.value.clusterSize == clusterSize && r.value.dataOffset == dataOffset
    ensures r.Ok? ==> forall k :: k in r.value.index ==> Registered(r.value, s, 0, r.value.index[k])
  {
    var empty := LfnDir(dir, map[], {}, map[], {}, FsObject.Create(readOnly), clusterSize, dataOffset);
    Parse(empty, s, 0, ws, wsCopy)
  }

  /** Running the scan a second time over the same table, with every name
      the first run registered still in use, fails on the first name the
      first run registered. */
  lemma {:induction false} ParseAgainFails(d: LfnDir, e: LfnDir, s: Directory.Store, i: nat, ws: set<Char8>, wsCopy: set<Char8>)
    requires Directory.Holds(s, d.dir.entries) && i <= |d.dir.entries| && Tracked(d) && Indexed(d)
    requires Parse(d, s, i, ws, wsCopy).Ok? && Parse(d, s, i, ws, wsCopy).value.index.Keys != d.index.Keys
    requires e.dir.entries == d.dir.entries && Tracked(e) && Indexed(e)
    requires Parse(d, s, i, ws, wsCopy).value.used <= e.used
    ensures Parse(e, s, i, ws, wsCopy) == Err(NameInUse)
    decreases |d.dir.entries| - i
  {
    var (end, name) := NextGroup(s, d.dir.entries, i, ws, wsCopy).value.value;
    if DirEntry.IsDeleted(s.cells[d.dir.entries[end]]) {
      ParseSkips(d, s, i, end, name, ws, wsCopy);
      ParseSkips(e, s, i, end, name, ws, wsCopy);
      ParseAgainFails(d, e, s, end + 1, ws, wsCopy);
    } else {
      ParseClashes(d, e, s, i, end, name, ws, wsCopy);
    }
  }

  /** A group whose real entry is deleted is passed over. */
  lemma ParseSkips(d: LfnDir, s: Directory.Store, i: nat, end: nat, name: Str, ws: set<Char8>, wsCopy: set<Char8>)
    requires Directory.Holds(s, d.dir.entries) && i <= |d.dir.entries| && Tracked(d) && Indexed(d)
    requires NextGroup(s, d.dir.entries, i, ws, wsCopy) == Ok(Some((end, name)))
    requires DirEntry.IsDeleted(s.cells[d.dir.entries[end]])
    ensures Parse(d, s, i, ws, wsCopy) == Parse(d, s, end + 1, ws, wsCopy)
  {
    assert Parse(d, s, i, ws, wsCopy) == ParseGroup(d, s, i, end, name, ws, wsCopy);
  }

  /** The second run fails at the first group the first run registered. */
  lemma ParseClashes(d: LfnDir, e: LfnDir, s: Directory.Store, i: nat, end: nat, name: Str, ws: set<Char8>, wsCopy: set<Char8>)
    requires Directory.Holds(s, d.dir.entries) && i <= |d.dir.entries| && Tracked(d) && Indexed(d)
    requires NextGroup(s, d.dir.entries, i, ws, wsCopy) == Ok(Some((end, name)))
    requires !DirEntry.IsDeleted(s.cells[d.dir.entries[end]])
    requires Parse(d, s, i, ws, wsCopy).Ok?
    requires e.dir.entries == d.dir.entries && Tracked(e) && Indexed(e)
    requires Parse(d, s, i, ws, wsCopy).value.used <= e.used
    ensures Parse(e, s, i, ws, wsCopy) == Err(NameInUse)
  {
    assert Parse(d, s, i, ws, wsCopy) == ParseGroup(d, s, i, end, name, ws, wsCopy);
    GroupRegisters(d, s, i, end, name, ws, wsCopy);
    assert Parse(e, s, i, ws, wsCopy) == ParseGroup(e, s, i, end, name, ws, wsCopy);
  }

  /** A group whose real entry is live leaves its name in use. */
  lemma GroupRegisters(d: LfnDir, s: Directory.Store, i: nat, end: nat, name: Str, ws: set<Char8>, wsCopy: set<Char8>)
    requires Directory.Holds(s, d.dir.entries) && i <= end < |d.dir.entries| && Tracked(d) && Indexed(d)
    requires !DirEntry.IsLfnEntry(s.cells[d.dir.entries[end]]) && !DirEntry.IsDeleted(s.cells[d.dir.entries[end]])
    requires ParseGroup(d, s, i, end, name, ws, wsCopy).Ok?
    ensures Lower(name) in ParseGroup(d, s, i, end, name, ws, wsCopy).value.used
  {
    var d1 := Register(d, name, d.dir.entries[end]).value;
    assert Lower(name) in d1.used;
  }

  // ------------------------------------------------------------ key order

  /** `std::string`'s `operator<`: the first differing character decides,
      compared as an unsigned byte, and a proper prefix comes first. */
  predicate Below(a: Str, b: Str)
  {
    if a == [] then b != []
    else b != [] && (a[0] < b[0] || (a[0] == b[0] && Below(a[1..], b[1..])))
  }

  lemma BelowIrreflexive(a: Str)
    ensures !Below(a, a)
  {
    if a != [] { BelowIrreflexive(a[1..]); }
  }

  lemma BelowAsymmetric(a: Str, b: Str)
    ensures Below(a, b) ==> !Below(b, a)
  {
    if a != [] && b != [] && a[0] == b[0] { BelowAsymmetric(a[1..], b[1..]); }
  }

  lemma BelowTransitive(a: Str, b: Str, c: Str)
    requires Below(a, b) && Below(b, c)
    ensures Below(a, c)
  {
    if a != [] && a[0] == b[0] && b[0] == c[0] { BelowTransitive(a[1..], b[1..], c[1..]); }
  }

  lemma BelowTotal(a: Str, b: Str)
    ensures a == b || Below(a, b) || Below(b, a)
  {
    if a != [] && b != [] && a[0] == b[0] {
      BelowTotal(a[1..], b[1..]);
      if a[1..] == b[1..] { assert a == [a[0]] + a[1..] && b == [b[0]] + b[1..]; }
    }
  }

  /** `m` is the key that comes first. */
  predicate IsLeast(m: Str, keys: set<Str>)
  {
    m in keys && forall k :: k in keys && k != m ==> Below(m, k)
  }

  lemma {:induction false} LeastExists(keys: set<Str>)
    requires keys != {}
    ensures exists m :: IsLeast(m, keys)
    decreases |keys|
  {
    var x :| x in keys;
    if keys == {x} {
      assert IsLeast(x, keys);
    } else {
      var rest := keys - {x};
      LeastExists(rest);
      var m :| IsLeast(m, rest);
      BelowTotal(x, m);
      if Below(x, m) {
        forall k | k in keys && k != x ensures Below(x, k) {
          if k != m { BelowTransitive(x, m, k); }
        }
        assert IsLeast(x, keys);
      } else {
        assert IsLeast(m, keys);
      }
    }
  }

  lemma LeastUnique(keys: set<Str>)
    ensures forall a, b :: IsLeast(a, keys) && IsLeast(b, keys) ==> a == b
  {
    forall a, b | IsLeast(a, keys) && IsLeast(b, keys) ensures a == b {
      BelowAsymmetric(a, b);
    }
  }

  /** The first key in `std::map` order. */
  function Least(keys: set<Str>): (m: Str)
    requires keys != {}
    ensures IsLeast(m, keys)
  {
    LeastExists(keys);
    LeastUnique(keys);
    var m :| IsLeast(m, keys);
    m
  }

  /** The keys in the order a `std::map` walks them. */
  function SortedKeys(keys: set<Str>): (r: seq<Str>)
    ensures |r| == |keys|
    ensures forall i :: 0 <= i < |r| ==> r[i] in keys
    ensures forall k :: k in keys ==> k in r
    ensures forall i, j :: 0 <= i < j < |r| ==> Below(r[i], r[j])
    decreases |keys|
  {
    if keys == {} then []
    else
      var m := Least(keys);
      [m] + SortedKeys(keys - {m})
  }

  /** The walk starts at the least key and walks the rest. */
  lemma SortedKeysHead(keys: set<Str>)
    requires keys != {}
    ensures SortedKeys(keys) == [Least(keys)] + SortedKeys(keys - {Least(keys)})
  {
  }

  /** `q` lists exactly `keys`, strictly ascending. */
  predicate AscendingListing(keys: set<Str>, q: seq<Str>)
  {
    && (forall i :: 0 <= i < |q| ==> q[i] in keys) && (forall k :: k in keys ==> k in q)
    && (forall i, j :: 0 <= i < j < |q| ==> Below(q[i], q[j]))
  }

  /** An ascending listing of a nonempty set starts at its least key, and
      the rest lists the rest. */
  lemma AscendingHead(keys: set<Str>, q: seq<Str>)
    requires q != [] && AscendingListing(keys, q)
    ensures keys != {} && q[0] == Least(keys)
    ensures AscendingListing(keys - {q[0]}, q[1..])
  {
    assert q[0] in keys;
    var m := Least(keys);
    assert IsLeast(q[0], keys) by {
      forall k | k in keys && k != q[0] ensures Below(q[0], k) {
        var j :| 0 <= j < |q| && q[j] == k;
      }
    }
    LeastUnique(keys);
    var rest := q[1..];
    forall i | 0 <= i < |rest| ensures rest[i] in keys - {m} {
      assert rest[i] == q[i + 1];
      BelowIrreflexive(q[0]);
    }
    forall k | k in keys - {m} ensures k in rest {
      var j :| 0 <= j < |q| && q[j] == k;
      assert rest[j - 1] == k;
    }
  }

  /** A nonempty sequence is its head before its tail. */
  lemma ConsListing(q: seq<Str>, m: Str, rest: seq<Str>)
    requires q != [] && q[0] == m && q[1..] == rest
    ensures q == [m] + rest
  {
  }

  /** Only the empty set is listed by the empty sequence. */
  lemma EmptyListing(keys: set<Str>)
    requires AscendingListing(keys, [])
    ensures keys == {}
  {
    assert forall k :: k !in keys;
  }

  /** Any strictly ascending listing of exactly the keys is the walk's
      order. */
  lemma {:induction false} SortedUnique(keys: set<Str>, q: seq<Str>)
    requires AscendingListing(keys, q)
    ensures q == SortedKeys(keys)
    decreases |keys|
  {
    if q == [] {
      EmptyListing(keys);
    } else {
      AscendingHead(keys, q);
      SortedUnique(keys - {q[0]}, q[1..]);
      SortedKeysHead(keys);
      ConsListing(q, q[0], q[1..]);
    }
  }

  /** The real entries `updateLFN` lists: one per indexed name, in key
      order. */
  function Listing(d: LfnDir): (r: seq<Id>)
    ensures |r| == |d.index|
    ensures forall i :: 0 <= i < |r| ==> r[i] == d.index[SortedKeys(d.index.Keys)[i]].realEntry
  {
    var keys := SortedKeys(d.index.Keys);
    seq(|keys|, i requires 0 <= i < |keys| => d.index[keys[i]].realEntry)
  }

  /** Every indexed name's real entry is listed. */
  lemma ListingHasNames(d: LfnDir, k: Str)
    requires k in d.index
    ensures d.index[k].realEntry in Listing(d)
  {
    var keys := SortedKeys(d.index.Keys);
    var i :| 0 <= i < |keys| && keys[i] == k;
    assert Listing(d)[i] == d.index[k].realEntry;
  }

  /** Every listed real entry is that of an indexed name. */
  lemma ListingOfNames(d: LfnDir, id: Id)
    requires id in Listing(d)
    ensures exists k :: k in d.index && d.index[k].realEntry == id
  {
    var i :| 0 <= i < |Listing(d)| && Listing(d)[i] == id;
    assert SortedKeys(d.index.Keys)[i] in d.index;
  }

  /** The listed real entries of the walk are in the store. */
  lemma ListingHeld(d: LfnDir, s: Directory.Store)
    requires Linked(d, s)
    ensures Directory.Holds(s, Listing(d))
  {
    forall i | 0 <= i < |Listing(d)| ensures Listing(d)[i] in s.cells {
      assert SortedKeys(d.index.Keys)[i] in d.index;
    }
  }

  /** `updateLFN()`: the table becomes one real entry per indexed name in
      key order, with no long-name slots: it is resized to that count and
      the list replaced.  A root table refuses more names than slots. */
  function UpdateLfn(d: LfnDir, f: Fat.Fat): (r: Partial<(LfnDir, Fat.Fat), ()>)
    requires f.Valid() && Directory.Resizable(d.dir, |d.index|)
    ensures r.state.1.Valid() && r.state.0 == d.(dir := r.state.0.dir)
    ensures r.Done? ==> r.state.0.dir.entries == Listing(d) && |r.state.0.dir.entries| <= r.state.0.dir.capacity
    ensures r.state.0.dir == d.dir.(entries := r.state.0.dir.entries, capacity := r.state.0.dir.capacity,
                                    backend := r.state.0.dir.backend)
    ensures d.dir.backend.RootRegion? ==> (r.Done? <==> |d.index| <= d.dir.capacity)
    ensures d.dir.backend.RootRegion? && r.Aborted? ==> r == Aborted((d, f), DirectoryFull)
    ensures d.dir.backend.RootRegion? ==> r.state.0.dir.capacity == d.dir.capacity && r.state.1 == f
    ensures d.dir.backend.RootRegion? && r.Done? ==> r.state.0 == d.(dir := d.dir.(entries := Listing(d)))
    ensures d.dir.backend.ChainStore? ==>
              r.state.0.dir.backend.ChainStore? && r.state.0.dir.backend.chain.clusterSize == d.dir.backend.chain.clusterSize
    ensures d.dir.backend.ChainStore? && r.Done? ==>
              var cs := d.dir.backend.chain.clusterSize;
              r.state.0.dir.capacity * DirEntry.SIZE < Directory.MAX_SIZE + 2 * cs
  {
    var ids := Listing(d);
    match Directory.ChangeSize(d.dir, f, |ids|)
    case Aborted((dir1, f1), e) => Aborted((d.(dir := dir1), f1), e)
    case Done((dir1, f1), _) =>
      match Directory.SetEntries(dir1, ids)
      case Err(e) => Aborted((d.(dir := dir1), f1), e)
      case Ok(dir2) => Done((d.(dir := dir2), f1), ())
  }

  /** The rebuilt table has exactly as many entries as there are names,
      whatever their length: a name that needs long-name slots is listed
      by its real entry alone. */
  lemma UpdateLfnWritesNoSlots(d: LfnDir, f: Fat.Fat, s: Directory.Store)
    requires f.Valid() && Directory.Resizable(d.dir, |d.index|) && UpdateLfn(d, f).Done?
    requires Linked(d, s) && forall k :: k in d.index ==> !DirEntry.IsLfnEntry(s.cells[d.index[k].realEntry])
    ensures var t := UpdateLfn(d, f).state.0.dir.entries;
            |t| == |d.index| && forall i :: 0 <= i < |t| ==> t[i] in s.cells && !DirEntry.IsLfnEntry(s.cells[t[i]])
  {
    var t := UpdateLfn(d, f).state.0.dir.entries;
    forall i | 0 <= i < |t| ensures t[i] in s.cells && !DirEntry.IsLfnEntry(s.cells[t[i]]) {
      assert SortedKeys(d.index.Keys)[i] in d.index;
    }
  }

  // ------------------------------------------------------------ files

  /** `getFile(entry)`: the cached file object for the real entry, or a
      new one, which is then cached. */
  function GetFile(d: LfnDir, s: Directory.Store, f: Fat.Fat, id: Id): (r: Result<(LfnDir, FatFile.File)>)
    requires id in s.cells
    ensures id in d.files ==> r == Ok((d, d.files[id]))
    ensures id !in d.files ==> (r.Ok? <==> FatFile.Get(f, s, id, d.clusterSize, d.dataOffset).Ok?)
    ensures id !in d.files && r.Ok? ==> r.value.1 == FatFile.Get(f, s, id, d.clusterSize, d.dataOffset).value
    ensures r.Ok? ==> r.value.0 == d.(files := d.files[id := r.value.1])
    ensures id !in d.files && DirEntry.IsDirectory(s.cells[id]) ==> r == Err(IsADirectory)
  {
    if id in d.files then Ok((d, d.files[id]))
    else
      var file :- FatFile.Get(f, s, id, d.clusterSize, d.dataOffset);
      Ok((d.(files := d.files[id := file]), file))
  }

  /** Asking again for the same entry gives the same object and changes
      nothing. */
  lemma GetFileCached(d: LfnDir, s: Directory.Store, f: Fat.Fat, id: Id)
    requires id in s.cells && GetFile(d, s, f, id).Ok?
    ensures var (d1, file) := GetFile(d, s, f, id).value;
            GetFile(d1, s, f, id) == Ok((d1, file))
  {
  }

  /** `e` and `t` are `d` and `s` after a file `name` was added with real
      entry `id`: a new, empty file entry in the store, listed last in the
      table, indexed under the lower-case name and with a file object. */
  predicate Added(d: LfnDir, s: Directory.Store, e: LfnDir, t: Directory.Store, name: Str, id: Id)
  {
    && id !in s.cells && t.Valid() && id in t.cells && t.cells == s.cells[id := t.cells[id]]
    && DirEntry.IsFile(t.cells[id]) && DirEntry.GetLength(t.cells[id]) == 0 && DirEntry.GetStartCluster(t.cells[id]) == 0
    && e.dir.entries == d.dir.entries + [id]
    && e.index == d.index[Lower(name) := LfnEntry.Named(name, id, FsObject.Create(false))]
    && id in e.files && e.obj == d.obj && e.dirs == d.dirs
  }

  /** A new, empty file entry `made` put in the store and appended to the
      table, indexed under `name` (and put in the used set when `register`
      is set), with a file object for it. */
  function Insert(d: LfnDir, s: Directory.Store, f: Fat.Fat, name: Str, made: DirEntry.Entry, register: bool)
    : (r: Partial<(LfnDir, Directory.Store, Fat.Fat), Id>)
    requires s.Valid() && f.Valid() && Directory.Resizable(d.dir, d.dir.capacity + 1)
    requires DirEntry.IsFile(made) && !DirEntry.IsDirectory(made) && made.obj == FsObject.Create(false)
    requires DirEntry.GetLength(made) == 0 && DirEntry.GetStartCluster(made) == 0
    ensures r.Done? <==> Directory.AddEntry(d.dir, f, s.next).Done?
    ensures r.Done? ==> Added(d, s, r.state.0, r.state.1, name, r.value)
    ensures r.Done? ==> r.state.0.used == (if register then d.used + {Lower(name)} else d.used)
    ensures r.state.2.Valid()
    ensures r.Done? && d.dir.backend.RootRegion? ==> r.state.0.dir == d.dir.(entries := r.state.0.dir.entries) && r.state.2 == f
  {
    var (s1, id) := Directory.Alloc(s, made);
    match Directory.AddEntry(d.dir, f, id)
    case Aborted((dir1, f1), e) => Aborted((d.(dir := dir1), s1, f1), e)
    case Done((dir1, f1), _) =>
      var key := Lower(name);
      var d1 := d.(dir := dir1, index := d.index[key := LfnEntry.Named(name, id, FsObject.Create(false))],
                   used := if register then d.used + {key} else d.used);
      assert FatFile.Fits(f1, s1, FatFile.File(id, ClusterChain.Chain(0, d.clusterSize, d.dataOffset), FsObject.Create(false)));
      match GetFile(d1, s1, f1, id)
      case Err(e) => Aborted((d1, s1, f1), e)
      case Ok((d2, _)) => Done((d2, s1, f1), id)
  }

  /** The body of `addFile(name)`, with the name put in the used set when
      `register` is set.  The trim of the name is discarded, so the name is
      used as given. */
  function AddNamed(d: LfnDir, s: Directory.Store, f: Fat.Fat, name: Str, register: bool)
    : (r: Partial<(LfnDir, Directory.Store, Fat.Fat), Id>)
    requires s.Valid() && f.Valid() && Directory.Resizable(d.dir, d.dir.capacity + 1)
    ensures FsObject.CheckWritable(d.obj).Err? ==> r == Aborted((d, s, f), FsObject.CheckWritable(d.obj).fault)
    ensures FsObject.CheckWritable(d.obj).Ok? && !IsFreeName(d, name) ==> r == Aborted((d, s, f), NameInUse)
    ensures r.Done? <==> && FsObject.CheckWritable(d.obj).Ok? && IsFreeName(d, name)
                         && LfnEntry.NewReal(name, false).Ok? && Directory.AddEntry(d.dir, f, s.next).Done?
    ensures r.Done? ==> Added(d, s, r.state.0, r.state.1, name, r.value)
    ensures r.Done? ==> r.state.0.used == (if register then d.used + {Lower(name)} else d.used)
    ensures r.state.2.Valid()
    ensures r.Done? && d.dir.backend.RootRegion? ==> r.state.0.dir == d.dir.(entries := r.state.0.dir.entries) && r.state.2 == f
  {
    var ok := FsObject.CheckWritable(d.obj);
    if ok.Err? then Aborted((d, s, f), ok.fault)
    else if !IsFreeName(d, name) then Aborted((d, s, f), NameInUse)
    else
      match LfnEntry.NewReal(name, false)
      case Err(e) => Aborted((d, s, f), e)
      case Ok(made) => Insert(d, s, f, name, made, register)
  }

  /** `addFile(name)` as written: the name is checked against the used
      set but never added to it. */
  function AddFileAsWritten(d: LfnDir, s: Directory.Store, f: Fat.Fat, name: Str)
    : (r: Partial<(LfnDir, Directory.Store, Fat.Fat), Id>)
    requires s.Valid() && f.Valid() && Directory.Resizable(d.dir, d.dir.capacity + 1)
    ensures r.Done? ==> Added(d, s, r.state.0, r.state.1, name, r.value) && r.state.0.used == d.used
    ensures r.Done? && Covered(d) ==> Covered(r.state.0)
    ensures r.Done? && Indexed(d) ==> Indexed(r.state.0)
    ensures r.Done? && Linked(d, s) ==> Linked(r.state.0, r.state.1)
    ensures r.Done? && d.dir.backend.RootRegion? ==> r.state.0.dir == d.dir.(entries := r.state.0.dir.entries) && r.state.2 == f
  {
    var r := AddNamed(d, s, f, name, false);
    if r.Done? then AddedKeepsCovered(d, s, r.state.0, r.state.1, name, r.value); r else r
  }

  /** `addFile(name)` with the name registered as in use, which keeps the
      used set equal to the index's keys. */
  function AddFile(d: LfnDir, s: Directory.Store, f: Fat.Fat, name: Str)
    : (r: Partial<(LfnDir, Directory.Store, Fat.Fat), Id>)
    requires s.Valid() && f.Valid() && Directory.Resizable(d.dir, d.dir.capacity + 1)
    ensures FsObject.CheckWritable(d.obj).Err? ==> r == Aborted((d, s, f), FsObject.CheckWritable(d.obj).fault)
    ensures FsObject.CheckWritable(d.obj).Ok? && !IsFreeName(d, name) ==> r == Aborted((d, s, f), NameInUse)
    ensures r.Done? <==> && FsObject.CheckWritable(d.obj).Ok? && IsFreeName(d, name)
                         && LfnEntry.NewReal(name, false).Ok? && Directory.AddEntry(d.dir, f, s.next).Done?
    ensures r.Done? ==> Added(d, s, r.state.0, r.state.1, name, r.value) && r.state.0.used == d.used + {Lower(name)}
    ensures r.Done? && Tracked(d) ==> Tracked(r.state.0)
    ensures r.Done? && Covered(d) ==> Covered(r.state.0)
    ensures r.Done? && Indexed(d) ==> Indexed(r.state.0)
    ensures r.Done? && Linked(d, s) ==> Linked(r.state.0, r.state.1)
  {
    var r := AddNamed(d, s, f, name, true);
    if r.Done? then AddedKeeps(d, s, r.state.0, r.state.1, name, r.value); r else r
  }

  /** A file added with its name registered keeps the index's invariants. */
  lemma AddedKeeps(d: LfnDir, s: Directory.Store, e: LfnDir, t: Directory.Store, name: Str, id: Id)
    requires Added(d, s, e, t, name, id) && e.used == d.used + {Lower(name)}
    ensures Tracked(d) ==> Tracked(e)
    ensures Covered(d) ==> Covered(e)
    ensures Indexed(d) ==> Indexed(e)
    ensures Linked(d, s) ==> Linked(e, t)
  {
    LowerIdempotent(name);
  }

  /** After adding a file, looking up its name in any spelling finds the
      new entry. */
  lemma AddThenGet(d: LfnDir, s: Directory.Store, f: Fat.Fat, name: Str, query: Str,
                   e: LfnDir, t: Directory.Store, g: Fat.Fat, id: Id)
    requires s.Valid() && f.Valid() && Directory.Resizable(d.dir, d.dir.capacity + 1)
    requires AddFile(d, s, f, name) == Done((e, t, g), id) && Lower(query) == Lower(name)
    ensures GetEntry(e, query) == Some(LfnEntry.Named(name, id, FsObject.Create(false)))
  {
  }

  /** Adding the same name again, in any spelling, is refused and changes
      nothing. */
  lemma AddTwiceRefused(d: LfnDir, s: Directory.Store, f: Fat.Fat, name: Str, again: Str,
                        e: LfnDir, t: Directory.Store, g: Fat.Fat, id: Id)
    requires s.Valid() && f.Valid() && Directory.Resizable(d.dir, d.dir.capacity + 1)
    requires AddFile(d, s, f, name) == Done((e, t, g), id) && Lower(again) == Lower(name)
    requires Directory.Resizable(e.dir, e.dir.capacity + 1)
    ensures AddFile(e, t, g, again) == Aborted((e, t, g), NameInUse)
  {
    assert Lower(again) in e.used;
  }

  /** As written, a name just added is still free: adding it a second
      time passes the check, and when that succeeds the index holds only
      the second file while the table lists both. */
  lemma AddTwiceAsWritten(d: LfnDir, s: Directory.Store, f: Fat.Fat, name: Str,
                          e: LfnDir, t: Directory.Store, g: Fat.Fat, first: Id)
    requires s.Valid() && f.Valid() && Directory.Resizable(d.dir, d.dir.capacity + 1)
    requires AddFileAsWritten(d, s, f, name) == Done((e, t, g), first)
    requires Tracked(d)
    ensures !Tracked(e) && IsFreeName(e, name) && CheckUniqueName(e, name).Ok?
    ensures Directory.Resizable(e.dir, e.dir.capacity + 1) && AddFileAsWritten(e, t, g, name).Done? ==>
              var second := AddFileAsWritten(e, t, g, name);
              && second.value != first
              && second.state.0.index[Lower(name)].realEntry == second.value
              && first in second.state.0.dir.entries && second.value in second.state.0.dir.entries
  {
    assert Lower(name) in e.index.Keys;
    if Directory.Resizable(e.dir, e.dir.capacity + 1) && AddFileAsWritten(e, t, g, name).Done? {
      var second := AddFileAsWritten(e, t, g, name);
      assert second.state.0.dir.entries == e.dir.entries + [second.value];
      assert e.dir.entries[|d.dir.entries|] == first;
    }
  }

  // ------------------------------------------------------------ links

  /** A name `unlinkEntry` passes over: empty, or starting with a dot. */
  predicate Dotted(name: Str)
  {
    name == [] || name[0] == '.'
  }

  /** Lower-casing neither empties a name nor makes or unmakes a leading
      dot. */
  lemma LowerDotted(name: Str)
    ensures Dotted(Lower(name)) <==> Dotted(name)
  {
    if name != [] {
      assert Lower(name)[0] == LowerChar(name[0]);
    }
  }

  /** Taking a key out of a map removes at most that one entry. */
  lemma RemovedCard(m: map<Str, LfnEntry.Named>, k: Str)
    ensures |m - {k}| <= |m|
    ensures k in m ==> |m - {k}| == |m| - 1
  {
    assert (m - {k}).Keys == m.Keys - {k};
  }

  /** What `unlinkEntry` asserts of a name it looks up: unless it is
      dotted, its lower-case form is indexed and in use. */
  predicate Unlinkable(d: LfnDir, entryName: Str)
  {
    !Dotted(entryName) ==> Lower(entryName) in d.index && Lower(entryName) in d.used
  }

  /** `unlinkEntry(entryName, isFile, realEntry)`: a dotted name is passed
      over; any other is dropped from the index and the used set, and the
      real entry from the file or the directory cache, and the indexed
      entry is handed back. */
  function Unlink(d: LfnDir, entryName: Str, isFile: bool, realEntry: Id): (r: (LfnDir, Option<LfnEntry.Named>))
    requires Unlinkable(d, entryName)
    ensures Dotted(entryName) ==> r == (d, None)
    ensures !Dotted(entryName) ==>
              var key := Lower(entryName);
              && r.1 == Some(d.index[key])
              && r.0.index == d.index - {key} && r.0.used == d.used - {key}
              && r.0.dir == d.dir && r.0.obj == d.obj
              && r.0.files == (if isFile then d.files - {realEntry} else d.files)
              && r.0.dirs == (if isFile then d.dirs else d.dirs - {realEntry})
    ensures !Dotted(entryName) ==> |r.0.index| == |d.index| - 1
    ensures Tracked(d) ==> Tracked(r.0)
    ensures Covered(d) ==> Covered(r.0)
    ensures Indexed(d) ==> Indexed(r.0)
  {
    if Dotted(entryName) then (d, None)
    else
      var key := Lower(entryName);
      RemovedCard(d.index, key);
      var files := if isFile then d.files - {realEntry} else d.files;
      var dirs := if isFile then d.dirs else d.dirs - {realEntry};
      (d.(index := d.index - {key}, used := d.used - {key}, files := files, dirs := dirs), Some(d.index[key]))
  }

  /** `unlinkEntry` with its two asserts checked, as a debug build does: a
      name that is not indexed, or indexed but not in use, fails its
      assert, which ends the program.  The second assert comes after the
      name has left the index. */
  function UnlinkChecked(d: LfnDir, entryName: Str, isFile: bool, realEntry: Id)
    : (r: Partial<LfnDir, Option<LfnEntry.Named>>)
    ensures r.Done? <==> Unlinkable(d, entryName)
    ensures r.Done? ==> (r.state, r.value) == Unlink(d, entryName, isFile, realEntry)
    ensures r.Aborted? ==> r.fault == AssertionFailed
    ensures r.Aborted? ==> r.state == d.(index := d.index - {Lower(entryName)})
    ensures Covered(d) ==> Covered(r.state)
    ensures Indexed(d) ==> Indexed(r.state)
  {
    var key := Lower(entryName);
    if Dotted(entryName) then Done(d, None)
    else if key !in d.index then
      assert d.(index := d.index - {key}) == d;
      Aborted(d, AssertionFailed)
    else if key !in d.used then Aborted(d.(index := d.index - {key}), AssertionFailed)
    else
      var (d1, n) := Unlink(d, entryName, isFile, realEntry);
      Done(d1, n)
  }

  /** Where the directory keeps every name in use indexed and in use,
      the checked unlink passes every name it looks up. */
  lemma TrackedUnlinkable(d: LfnDir, entryName: Str)
    requires Tracked(d) && (Dotted(entryName) || Lower(entryName) in d.index)
    ensures UnlinkChecked(d, entryName, true, 0).Done? && UnlinkChecked(d, entryName, false, 0).Done?
  {
  }

  /** The body of `remove(name)` once the lookup has given `found`: in a
      writable directory, a found entry is unlinked, its chain freed and
      the table rewritten from the index. */
  function RemoveFound(d: LfnDir, s: Directory.Store, f: Fat.Fat, found: Option<LfnEntry.Named>)
    : (r: Partial<(LfnDir, Fat.Fat), ()>)
    requires f.Valid() && Linked(d, s) && Covered(d) && Indexed(d) && Directory.Resizable(d.dir, |d.index|)
    requires found.Some? ==> Lower(found.value.fileName) in d.index && d.index[Lower(found.value.fileName)] == found.value
    ensures r.state.1.Valid()
    ensures FsObject.CheckWritable(d.obj).Err? ==> r == Aborted((d, f), FsObject.CheckWritable(d.obj).fault)
    ensures FsObject.CheckWritable(d.obj).Ok? && found.None? ==> r == Done((d, f), ())
    ensures FsObject.CheckWritable(d.obj).Ok? && found.Some? ==> r == Drop(d, s, f, found.value)
    ensures Covered(r.state.0) && Indexed(r.state.0) && Linked(r.state.0, s)
    ensures Tracked(d) ==> Tracked(r.state.0)
  {
    var ok := FsObject.CheckWritable(d.obj);
    if ok.Err? then Aborted((d, f), ok.fault)
    else
      match found
      case None => Done((d, f), ())
      case Some(n) => Drop(d, s, f, n)
  }

  /** The found entry `n` unlinked, its chain freed and the table
      rewritten from the index. */
  function Drop(d: LfnDir, s: Directory.Store, f: Fat.Fat, n: LfnEntry.Named): (r: Partial<(LfnDir, Fat.Fat), ()>)
    requires f.Valid() && Linked(d, s) && Covered(d) && Indexed(d) && Directory.Resizable(d.dir, |d.index|)
    requires Lower(n.fileName) in d.index && d.index[Lower(n.fileName)] == n
    ensures r.state.1.Valid()
    ensures Covered(r.state.0) && Indexed(r.state.0) && Linked(r.state.0, s)
    ensures Tracked(d) ==> Tracked(r.state.0)
    ensures n.obj.valid && !Dotted(n.fileName) && Lower(n.fileName) !in d.used ==>
              r == Aborted((d.(index := d.index - {Lower(n.fileName)}), f), AssertionFailed)
    ensures r.Done? && !Dotted(n.fileName) ==>
              var key := Lower(n.fileName);
              && r.state.0.index == d.index - {key} && r.state.0.used == d.used - {key}
              && r.state.0.dir.entries == Listing(r.state.0)
  {
    match LfnEntry.GetName(n)
    case Err(e) => Aborted((d, f), e)
    case Ok(entryName) =>
      var entry := s.cells[n.realEntry];
      match UnlinkChecked(d, entryName, DirEntry.IsFile(entry), n.realEntry)
      case Aborted(d1, e) => Aborted((d1, f), e)
      case Done(d1, _) =>
        RemovedCard(d.index, Lower(entryName));
        Release(d1, f, DirEntry.GetStartCluster(entry))
  }

  /** `remove(name)` with the lookup by the lower-case name, so that every
      spelling of an indexed name removes it; a name that is not found
      changes nothing. */
  function Remove(d: LfnDir, s: Directory.Store, f: Fat.Fat, name: Str): (r: Partial<(LfnDir, Fat.Fat), ()>)
    requires f.Valid() && Linked(d, s) && Covered(d) && Indexed(d) && Directory.Resizable(d.dir, |d.index|)
    ensures r.state.1.Valid()
    ensures FsObject.CheckWritable(d.obj).Err? ==> r == Aborted((d, f), FsObject.CheckWritable(d.obj).fault)
    ensures FsObject.CheckWritable(d.obj).Ok? && GetEntry(d, name).None? ==> r == Done((d, f), ())
    ensures Covered(r.state.0) && Indexed(r.state.0) && Linked(r.state.0, s)
    ensures Tracked(d) ==> Tracked(r.state.0)
    ensures r.Done? && GetEntry(d, name).Some? && !Dotted(name) ==>
              && r.state.0.index == d.index - {Lower(name)} && r.state.0.used == d.used - {Lower(name)}
              && r.state.0.dir.entries == Listing(r.state.0)
              && GetEntry(r.state.0, name).None?
  {
    FoundByLower(d, name);
    LowerIdempotent(name);
    RemoveFound(d, s, f, GetEntry(d, name))
  }

  /** The entry indexed under a name's lower-case form is dotted exactly
      when the name is. */
  lemma FoundByLower(d: LfnDir, name: Str)
    requires Indexed(d)
    ensures Lower(name) in d.index ==> (Dotted(d.index[Lower(name)].fileName) <==> Dotted(name))
  {
    LowerDotted(name);
    if Lower(name) in d.index {
      LowerDotted(d.index[Lower(name)].fileName);
    }
  }

  /** `remove(name)` as written: the entry is looked up with the lookup as
      written, so only the lower-case spelling of a name removes it. */
  function RemoveAsWritten(d: LfnDir, s: Directory.Store, f: Fat.Fat, name: Str): (r: Partial<(LfnDir, Fat.Fat), ()>)
    requires f.Valid() && Linked(d, s) && Covered(d) && Indexed(d) && Directory.Resizable(d.dir, |d.index|)
    ensures r.state.1.Valid()
    ensures FsObject.CheckWritable(d.obj).Err? ==> r == Aborted((d, f), FsObject.CheckWritable(d.obj).fault)
    ensures FsObject.CheckWritable(d.obj).Ok? && name !in d.index ==> r == Done((d, f), ())
    ensures Covered(r.state.0) && Indexed(r.state.0) && Linked(r.state.0, s)
    ensures FsObject.CheckWritable(d.obj).Ok? && name in d.index && d.index[name].obj.valid
            && !Dotted(name) && name !in d.used ==>
              r == Aborted((d.(index := d.index - {name}), f), AssertionFailed)
    ensures r.Done? && name in d.index && !Dotted(name) ==>
              && r.state.0.index == d.index - {name} && r.state.0.used == d.used - {name}
              && r.state.0.dir.entries == Listing(r.state.0)
  {
    FoundByLower(d, name);
    RemoveFound(d, s, f, GetEntryAsWritten(d, name))
  }

  /** On a lower-case name the two removes agree. */
  lemma RemoveAgreesOnLowerCase(d: LfnDir, s: Directory.Store, f: Fat.Fat, name: Str)
    requires f.Valid() && Linked(d, s) && Covered(d) && Indexed(d) && Directory.Resizable(d.dir, |d.index|)
    requires Lower(name) == name
    ensures RemoveAsWritten(d, s, f, name) == Remove(d, s, f, name)
  {
    GetEntryAgreesOnLowerCase(d, name);
  }

  /** On any other spelling of an indexed name, the remove as written
      changes nothing, while the corrected one takes the name out. */
  lemma RemoveAsWrittenMissesCase(d: LfnDir, s: Directory.Store, f: Fat.Fat, name: Str)
    requires f.Valid() && Linked(d, s) && Covered(d) && Indexed(d) && Directory.Resizable(d.dir, |d.index|)
    requires FsObject.CheckWritable(d.obj).Ok? && Lower(name) in d.index && Lower(name) != name
    ensures RemoveAsWritten(d, s, f, name) == Done((d, f), ())
    ensures Remove(d, s, f, name).Done? && !Dotted(name) ==> Lower(name) !in Remove(d, s, f, name).state.0.index
  {
    GetEntryMissesCase(d, name);
  }

  /** The tail of `remove`: the chain starting at `start` is freed and
      the table rewritten from the index. */
  function Release(d: LfnDir, f: Fat.Fat, start: int): (r: Partial<(LfnDir, Fat.Fat), ()>)
    requires f.Valid() && Directory.Resizable(d.dir, |d.index|)
    ensures r.state.1.Valid() && r.state.0 == d.(dir := r.state.0.dir)
    ensures r.Done? ==> r.state.0.dir.entries == Listing(d)
    ensures ClusterChain.Open(f, start, d.clusterSize, d.dataOffset).Err? ==>
              r == Aborted((d, f), ClusterChain.Open(f, start, d.clusterSize, d.dataOffset).fault)
  {
    match ClusterChain.Open(f, start, d.clusterSize, d.dataOffset)
    case Err(e) => Aborted((d, f), e)
    case Ok(c) =>
      match ClusterChain.SetChainLength(f, c, 0)
      case Aborted((f1, _), e) => Aborted((d, f1), e)
      case Done((f1, _), _) => UpdateLfn(d, f1)
  }

  /** Adding a file with its name registered and removing it again by the
      same name takes the name out of the index and leaves the used set as
      it was: the index as it was, unless the name was indexed but not in
      use before. */
  lemma AddThenRemove(d: LfnDir, s: Directory.Store, f: Fat.Fat, name: Str,
                      e: LfnDir, t: Directory.Store, g: Fat.Fat, id: Id)
    requires s.Valid() && f.Valid() && Directory.Resizable(d.dir, d.dir.capacity + 1)
    requires Covered(d) && Indexed(d) && Linked(d, s) && !Dotted(name)
    requires AddFile(d, s, f, name) == Done((e, t, g), id)
    requires Directory.Resizable(e.dir, |e.index|)
    ensures var r := Remove(e, t, g, name);
            r.Done? ==> && r.state.0.index == d.index - {Lower(name)} && r.state.0.used == d.used
                        && (Tracked(d) ==> r.state.0.index == d.index)
  {
    var key := Lower(name);
    AddedUnder(d, s, f, name, e, t, g, id);
    assert Covered(e) && Indexed(e) && Linked(e, t);
    var r := Remove(e, t, g, name);
    if r.Done? {
      UndoInsert(d.index, d.used, e.index, e.used, key, r.state.0.index, r.state.0.used);
    }
  }

  /** What a completed add leaves of the name: indexed, newly in use, and
      found in any spelling. */
  lemma AddedUnder(d: LfnDir, s: Directory.Store, f: Fat.Fat, name: Str,
                   e: LfnDir, t: Directory.Store, g: Fat.Fat, id: Id)
    requires s.Valid() && f.Valid() && Directory.Resizable(d.dir, d.dir.capacity + 1)
    requires AddFile(d, s, f, name) == Done((e, t, g), id)
    ensures var key := Lower(name);
            && key !in d.used && e.index == d.index[key := LfnEntry.Named(name, id, FsObject.Create(false))]
            && e.used == d.used + {key} && GetEntry(e, name).Some?
  {
  }

  /** As written, a file just added cannot be removed: its name was never
      put in use, so `unlinkEntry`'s second assert fails once the name has
      left the index.  Any spelling but the lower-case one is not found
      and changes nothing. */
  lemma AddThenRemoveAsWritten(d: LfnDir, s: Directory.Store, f: Fat.Fat, name: Str,
                               e: LfnDir, t: Directory.Store, g: Fat.Fat, id: Id)
    requires s.Valid() && f.Valid() && Directory.Resizable(d.dir, d.dir.capacity + 1)
    requires Covered(d) && Indexed(d) && Linked(d, s) && !Dotted(name)
    requires AddFileAsWritten(d, s, f, name) == Done((e, t, g), id)
    requires Directory.Resizable(e.dir, |e.index|)
    ensures RemoveAsWritten(e, t, g, Lower(name)) == Aborted((e.(index := e.index - {Lower(name)}), g), AssertionFailed)
    ensures Lower(name) != name ==> RemoveAsWritten(e, t, g, name) == Done((e, g), ())
  {
    var key := Lower(name);
    LowerIdempotent(name);
    LowerDotted(name);
    assert FsObject.CheckWritable(e.obj).Ok?;
    assert key in e.index && key !in e.used;
    if Lower(name) != name {
      assert name !in e.index by {
        if name in e.index { LowerIdempotent(e.index[name].fileName); }
      }
    }
  }

  /** A file added as written keeps every name in use indexed. */
  lemma AddedKeepsCovered(d: LfnDir, s: Directory.Store, e: LfnDir, t: Directory.Store, name: Str, id: Id)
    requires Added(d, s, e, t, name, id) && e.used == d.used
    ensures Covered(d) ==> Covered(e)
    ensures Indexed(d) ==> Indexed(e)
    ensures Linked(d, s) ==> Linked(e, t)
  {
    LowerIdempotent(name);
  }

  /** Taking out a key just put in gives back the map without the key,
      and the set. */
  lemma UndoInsert(m: map<Str, LfnEntry.Named>, used: set<Str>, m1: map<Str, LfnEntry.Named>, used1: set<Str>,
                   k: Str, m2: map<Str, LfnEntry.Named>, used2: set<Str>)
    requires k !in used && k in m1 && m1 == m[k := m1[k]] && used1 == used + {k}
    requires m2 == m1 - {k} && used2 == used1 - {k}
    ensures m2 == m - {k} && used2 == used
    ensures m.Keys == used ==> m2 == m
  {
    assert m2 == m - {k};
  }

  /** `linkEntry(entry)`: the entry's name is checked to be free, written
      into the real entry as its Akai name, and indexed; then the table is
      rewritten.  The name is put in the used set when `register` is set. */
  function LinkNamed(d: LfnDir, s: Directory.Store, f: Fat.Fat, n: LfnEntry.Named, register: bool)
    : (r: Partial<(LfnDir, Directory.Store, Fat.Fat), ()>)
    requires f.Valid() && n.realEntry in s.cells && Directory.Resizable(d.dir, |d.index| + 1)
    ensures r.state.2.Valid() && Directory.Changed(s, r.state.1, n.realEntry)
    ensures r.state.0.obj == d.obj && r.state.0.files == d.files && r.state.0.dirs == d.dirs
    ensures !n.obj.valid ==> r == Aborted((d, s, f), NotValid)
    ensures n.obj.valid && !IsFreeName(d, n.fileName) ==> r == Aborted((d, s, f), NameInUse)
    ensures r.Done? ==> Relinked(d, r.state.0, n, register)
    ensures r.Done? ==> DirEntry.SetAkaiName(s.cells[n.realEntry], n.fileName) == Done(r.state.1.cells[n.realEntry], ())
  {
    match LfnEntry.GetName(n)
    case Err(e) => Aborted((d, s, f), e)
    case Ok(name) =>
      if !IsFreeName(d, name) then Aborted((d, s, f), NameInUse)
      else
        var named := DirEntry.SetAkaiName(s.cells[n.realEntry], name);
        var s1 := Directory.Store(s.cells[n.realEntry := named.state], s.next);
        if named.Aborted? then Aborted((d, s1, f), named.fault)
        else
          match Reindex(d, f, n, register)
          case Aborted((d2, f2), e) => Aborted((d2, s1, f2), e)
          case Done((d2, f2), _) => Done((d2, s1, f2), ())
  }

  /** `e` is `d` with `n` indexed under its lower-case name (and the name
      in use when `register` is set), and its table listing the index. */
  predicate Relinked(d: LfnDir, e: LfnDir, n: LfnEntry.Named, register: bool)
  {
    && e.index == d.index[Lower(n.fileName) := n]
    && e.used == (if register then d.used + {Lower(n.fileName)} else d.used)
    && e.dir.entries == Listing(e)
  }

  /** The tail of `linkEntry`: the entry indexed, then the table
      rewritten. */
  function Reindex(d: LfnDir, f: Fat.Fat, n: LfnEntry.Named, register: bool): (r: Partial<(LfnDir, Fat.Fat), ()>)
    requires f.Valid() && Directory.Resizable(d.dir, |d.index| + 1)
    ensures r.state.1.Valid()
    ensures r.state.0.obj == d.obj && r.state.0.files == d.files && r.state.0.dirs == d.dirs
    ensures r.Done? ==> Relinked(d, r.state.0, n, register)
  {
    var key := Lower(n.fileName);
    var d1 := d.(index := d.index[key := n], used := if register then d.used + {key} else d.used);
    var r := UpdateLfn(d1, f);
    assert r.Done? ==> Listing(r.state.0) == Listing(d1);
    r
  }

  /** `linkEntry(entry)` as written: the name is never put in the used
      set. */
  function LinkEntryAsWritten(d: LfnDir, s: Directory.Store, f: Fat.Fat, n: LfnEntry.Named)
    : (r: Partial<(LfnDir, Directory.Store, Fat.Fat), ()>)
    requires f.Valid() && n.realEntry in s.cells && Directory.Resizable(d.dir, |d.index| + 1)
    ensures r.Done? ==> r.state.0.index == d.index[Lower(n.fileName) := n] && r.state.0.used == d.used
  {
    LinkNamed(d, s, f, n, false)
  }

  /** `linkEntry(entry)`, with what it keeps of the directory's
      invariants. */
  function LinkKept(d: LfnDir, s: Directory.Store, f: Fat.Fat, n: LfnEntry.Named, register: bool)
    : (r: Partial<(LfnDir, Directory.Store, Fat.Fat), ()>)
    requires f.Valid() && n.realEntry in s.cells && Directory.Resizable(d.dir, |d.index| + 1)
    ensures r == LinkNamed(d, s, f, n, register)
    ensures r.Done? && register && Tracked(d) ==> Tracked(r.state.0)
    ensures r.Done? && Covered(d) ==> Covered(r.state.0)
    ensures r.Done? && Indexed(d) ==> Indexed(r.state.0)
    ensures r.Done? && Linked(d, s) ==> Linked(r.state.0, r.state.1)
  {
    var r := LinkNamed(d, s, f, n, register);
    if r.Done? then RelinkedKeeps(d, s, r.state.0, r.state.1, n, register); r else r
  }

  /** `linkEntry(entry)` with the name registered as in use, which keeps
      the used set equal to the index's keys. */
  function LinkEntry(d: LfnDir, s: Directory.Store, f: Fat.Fat, n: LfnEntry.Named)
    : (r: Partial<(LfnDir, Directory.Store, Fat.Fat), ()>)
    requires f.Valid() && n.realEntry in s.cells && Directory.Resizable(d.dir, |d.index| + 1)
    ensures r.state.2.Valid() && Directory.Changed(s, r.state.1, n.realEntry)
    ensures !n.obj.valid ==> r == Aborted((d, s, f), NotValid)
    ensures n.obj.valid && !IsFreeName(d, n.fileName) ==> r == Aborted((d, s, f), NameInUse)
    ensures r.Done? ==> Relinked(d, r.state.0, n, true)
    ensures r.Done? ==> DirEntry.SetAkaiName(s.cells[n.realEntry], n.fileName) == Done(r.state.1.cells[n.realEntry], ())
    ensures r.Done? && Tracked(d) ==> Tracked(r.state.0)
    ensures r.Done? && Indexed(d) ==> Indexed(r.state.0)
    ensures r.Done? && Linked(d, s) ==> Linked(r.state.0, r.state.1)
  {
    var r := LinkNamed(d, s, f, n, true);
    if r.Done? then RelinkedKeeps(d, s, r.state.0, r.state.1, n, true); r else r
  }

  /** A linked entry keeps every name in use indexed, and with its name
      registered keeps the used set equal to the index's keys. */
  lemma RelinkedKeeps(d: LfnDir, s: Directory.Store, e: LfnDir, t: Directory.Store, n: LfnEntry.Named, register: bool)
    requires Relinked(d, e, n, register) && Directory.Changed(s, t, n.realEntry)
    ensures register && Tracked(d) ==> Tracked(e)
    ensures Covered(d) ==> Covered(e)
    ensures Indexed(d) ==> Indexed(e)
    ensures Linked(d, s) ==> Linked(e, t)
  {
    LowerIdempotent(n.fileName);
  }

  /** Unlinking an indexed entry and linking it back restores the index
      and the used set: the unlink passes exactly when the name is in use,
      and the name is free again in between. */
  lemma UnlinkThenLink(d: LfnDir, s: Directory.Store, f: Fat.Fat, key: Str, isFile: bool)
    requires f.Valid() && Covered(d) && Indexed(d) && Linked(d, s) && key in d.index
    requires !Dotted(d.index[key].fileName) && Directory.Resizable(d.dir, |d.index|)
    ensures var n := d.index[key];
            var u := UnlinkChecked(d, n.fileName, isFile, n.realEntry);
            && (u.Done? <==> key in d.used)
            && (u.Done? ==> && IsFreeName(u.state, n.fileName)
                            && (LinkEntry(u.state, s, f, n).Done? ==>
                                  LinkEntry(u.state, s, f, n).state.0.index == d.index
                                  && LinkEntry(u.state, s, f, n).state.0.used == d.used))
  {
    var n := d.index[key];
    assert Lower(n.fileName) == key;
    RemovedCard(d.index, key);
    var u := UnlinkChecked(d, n.fileName, isFile, n.realEntry);
    if u.Done? {
      assert u.state.index[key := n] == d.index;
    }
  }

  /** As written, unlinking an indexed entry in use and linking it back
      restores the index, but the name is no longer in use. */
  lemma UnlinkThenLinkAsWritten(d: LfnDir, s: Directory.Store, f: Fat.Fat, key: Str, isFile: bool)
    requires f.Valid() && Covered(d) && Indexed(d) && Linked(d, s) && key in d.index && key in d.used
    requires !Dotted(d.index[key].fileName) && Directory.Resizable(d.dir, |d.index|)
    ensures var n := d.index[key];
            var d1 := Unlink(d, n.fileName, isFile, n.realEntry).0;
            var r := LinkEntryAsWritten(d1, s, f, n);
            r.Done? ==> r.state.0.index == d.index && r.state.0.used == d.used - {key} && IsFreeName(r.state.0, n.fileName)
  {
    var n := d.index[key];
    assert Lower(n.fileName) == key;
    RemovedCard(d.index, key);
    var d1 := Unlink(d, n.fileName, isFile, n.realEntry).0;
    assert d1.index[key := n] == d.index;
  }

  /** As written, a linked name stays free, so the used set no longer
      matches the index. */
  lemma LinkAsWrittenLeavesFree(d: LfnDir, s: Directory.Store, f: Fat.Fat, n: LfnEntry.Named)
    requires f.Valid() && n.realEntry in s.cells && Directory.Resizable(d.dir, |d.index| + 1)
    requires Tracked(d) && LinkEntryAsWritten(d, s, f, n).Done?
    ensures var e := LinkEntryAsWritten(d, s, f, n).state.0;
            IsFreeName(e, n.fileName) && !Tracked(e)
  {
    var e := LinkEntryAsWritten(d, s, f, n).state.0;
    assert Lower(n.fileName) in e.index;
  }

  // ------------------------------------------------------------ renaming

  /** The entry indexed under `key` may be renamed or moved: its name is
      not dotted (for such a name `unlinkEntry` hands back nothing, which
      `linkEntry` then dereferences). */
  predicate Movable(d: LfnDir, s: Directory.Store, key: Str)
  {
    && Covered(d) && Indexed(d) && Linked(d, s) && key in d.index
    && !Dotted(d.index[key].fileName)
  }

  /** The body of `setName(newName)` on the entry indexed under `key`: a
      writable entry whose new name is free in its directory is unlinked,
      renamed and linked again, with the new name put in use when
      `register` is set. */
  function Rename(d: LfnDir, s: Directory.Store, f: Fat.Fat, key: Str, newName: Str, register: bool)
    : (r: Partial<(LfnDir, Directory.Store, Fat.Fat), ()>)
    requires f.Valid() && Movable(d, s, key) && Directory.Resizable(d.dir, |d.index|)
    ensures var n := d.index[key];
            FsObject.CheckWritable(n.obj).Err? ==> r == Aborted((d, s, f), FsObject.CheckWritable(n.obj).fault)
    ensures FsObject.CheckWritable(d.index[key].obj).Ok? && !IsFreeName(d, newName) ==> r == Aborted((d, s, f), NameInUse)
    ensures FsObject.CheckWritable(d.index[key].obj).Ok? && IsFreeName(d, newName) && key !in d.used ==>
              r == Aborted((d.(index := d.index - {key}), s, f), AssertionFailed)
    ensures r.state.2.Valid() && Directory.Changed(s, r.state.1, d.index[key].realEntry)
    ensures r.Done? ==>
              var n := d.index[key];
              && r.state.0.index == (d.index - {key})[Lower(newName) := n.(fileName := newName)]
              && r.state.0.used == (if register then (d.used - {key}) + {Lower(newName)} else d.used - {key})
              && r.state.0.dir.entries == Listing(r.state.0)
              && Covered(r.state.0) && Indexed(r.state.0) && Linked(r.state.0, r.state.1)
              && (register && Tracked(d) ==> Tracked(r.state.0))
              && DirEntry.SetAkaiName(s.cells[n.realEntry], newName) == Done(r.state.1.cells[n.realEntry], ())
  {
    var n := d.index[key];
    var ok := FsObject.CheckWritable(n.obj);
    if ok.Err? then Aborted((d, s, f), ok.fault)
    else if !IsFreeName(d, newName) then Aborted((d, s, f), NameInUse)
    else Relabel(d, s, f, key, newName, register)
  }

  /** The unlink and the link again of `setName`, once the new name is
      known to be free. */
  function Relabel(d: LfnDir, s: Directory.Store, f: Fat.Fat, key: Str, newName: Str, register: bool)
    : (r: Partial<(LfnDir, Directory.Store, Fat.Fat), ()>)
    requires f.Valid() && Movable(d, s, key) && Directory.Resizable(d.dir, |d.index|) && IsFreeName(d, newName)
    ensures key !in d.used ==> r == Aborted((d.(index := d.index - {key}), s, f), AssertionFailed)
    ensures r.state.2.Valid() && Directory.Changed(s, r.state.1, d.index[key].realEntry)
    ensures r.Done? ==>
              var n := d.index[key];
              && Relinked(d.(index := d.index - {key}, used := d.used - {key}), r.state.0, n.(fileName := newName), register)
              && Covered(r.state.0) && Indexed(r.state.0) && Linked(r.state.0, r.state.1)
              && (register && Tracked(d) ==> Tracked(r.state.0))
              && DirEntry.SetAkaiName(s.cells[n.realEntry], newName) == Done(r.state.1.cells[n.realEntry], ())
  {
    var n := d.index[key];
    assert Lower(n.fileName) == key;
    var u := UnlinkChecked(d, n.fileName, DirEntry.IsFile(s.cells[n.realEntry]), n.realEntry);
    if u.Aborted? then Aborted((u.state, s, f), u.fault)
    else
      var d1 := u.state;
      assert d1.index == d.index - {key} && d1.used == d.used - {key} && d1.dir == d.dir;
      RemovedCard(d.index, key);
      DroppedLinked(d, d1, s);
      LinkKept(d1, s, f, n.(fileName := newName), register)
  }

  /** Dropping names from the index keeps every remaining entry linked. */
  lemma DroppedLinked(d: LfnDir, e: LfnDir, s: Directory.Store)
    requires Linked(d, s) && e.index.Keys <= d.index.Keys
    requires forall k :: k in e.index ==> e.index[k] == d.index[k]
    ensures Linked(e, s)
  {
  }

  /** `setName(newName)` with the new name registered as in use. */
  function SetName(d: LfnDir, s: Directory.Store, f: Fat.Fat, key: Str, newName: Str)
    : (r: Partial<(LfnDir, Directory.Store, Fat.Fat), ()>)
    requires f.Valid() && Movable(d, s, key) && Directory.Resizable(d.dir, |d.index|)
    ensures var n := d.index[key];
            FsObject.CheckWritable(n.obj).Err? ==> r == Aborted((d, s, f), FsObject.CheckWritable(n.obj).fault)
    ensures FsObject.CheckWritable(d.index[key].obj).Ok? && !IsFreeName(d, newName) ==> r == Aborted((d, s, f), NameInUse)
    ensures r.state.2.Valid() && Directory.Changed(s, r.state.1, d.index[key].realEntry)
    ensures r.Done? ==>
              var n := d.index[key];
              && r.state.0.index == (d.index - {key})[Lower(newName) := n.(fileName := newName)]
              && r.state.0.used == (d.used - {key}) + {Lower(newName)}
              && r.state.0.dir.entries == Listing(r.state.0)
              && Covered(r.state.0) && Indexed(r.state.0) && Linked(r.state.0, r.state.1)
              && (Tracked(d) ==> Tracked(r.state.0))
              && DirEntry.SetAkaiName(s.cells[n.realEntry], newName) == Done(r.state.1.cells[n.realEntry], ())
  {
    Rename(d, s, f, key, newName, true)
  }

  /** `setName(newName)` as written: the new name is not put in use, and
      an entry whose name is not in use (one added or linked in this
      session) fails `unlinkEntry`'s assert. */
  function SetNameAsWritten(d: LfnDir, s: Directory.Store, f: Fat.Fat, key: Str, newName: Str)
    : (r: Partial<(LfnDir, Directory.Store, Fat.Fat), ()>)
    requires f.Valid() && Movable(d, s, key) && Directory.Resizable(d.dir, |d.index|)
    ensures FsObject.CheckWritable(d.index[key].obj).Ok? && IsFreeName(d, newName) && key !in d.used ==>
              r == Aborted((d.(index := d.index - {key}), s, f), AssertionFailed)
    ensures r.Done? ==>
              && r.state.0.index == (d.index - {key})[Lower(newName) := d.index[key].(fileName := newName)]
              && r.state.0.used == d.used - {key}
              && Covered(r.state.0) && Indexed(r.state.0)
  {
    Rename(d, s, f, key, newName, false)
  }

  /** After a rename the entry is found under the new name, in any
      spelling, and no longer under the old one unless the two differ only
      in case. */
  lemma RenameThenGet(d: LfnDir, s: Directory.Store, f: Fat.Fat, key: Str, newName: Str, query: Str)
    requires f.Valid() && Movable(d, s, key) && Directory.Resizable(d.dir, |d.index|)
    requires SetName(d, s, f, key, newName).Done?
    ensures var e := SetName(d, s, f, key, newName).state.0;
            && (Lower(query) == Lower(newName) ==> GetEntry(e, query) == Some(d.index[key].(fileName := newName)))
            && (Lower(query) == key && key != Lower(newName) ==> GetEntry(e, query).None?)
  {
  }

  /** As written, a renamed entry's new name is still free afterwards,
      and the old name is free too. */
  lemma RenameAsWrittenLeavesFree(d: LfnDir, s: Directory.Store, f: Fat.Fat, key: Str, newName: Str)
    requires f.Valid() && Movable(d, s, key) && Directory.Resizable(d.dir, |d.index|)
    requires SetNameAsWritten(d, s, f, key, newName).Done?
    ensures var e := SetNameAsWritten(d, s, f, key, newName).state.0;
            && IsFreeName(e, newName) && IsFreeName(e, key)
            && Lower(newName) in e.index
  {
    var r := Rename(d, s, f, key, newName, false);
    assert SetNameAsWritten(d, s, f, key, newName) == r;
    assert IsFreeName(d, newName) && r.state.0.used == d.used - {key};
    LowerIdempotent(d.index[key].fileName);
  }

  /** The body of `moveTo(target, newName)` on the entry indexed under `key`
      in `src`: a writable entry whose new name is free in the target is
      unlinked from `src` and linked into the target under the new name,
      put in use there when `register` is set.  The source directory's
      table is left to its next flush. */
  function Move(src: LfnDir, target: LfnDir, s: Directory.Store, f: Fat.Fat, key: Str, newName: Str, register: bool)
    : (r: Partial<(LfnDir, LfnDir, Directory.Store, Fat.Fat), ()>)
    requires f.Valid() && Movable(src, s, key) && Directory.Resizable(target.dir, |target.index| + 1)
    ensures var n := src.index[key];
            FsObject.CheckWritable(n.obj).Err? ==> r == Aborted((src, target, s, f), FsObject.CheckWritable(n.obj).fault)
    ensures FsObject.CheckWritable(src.index[key].obj).Ok? && !IsFreeName(target, newName) ==>
              r == Aborted((src, target, s, f), NameInUse)
    ensures FsObject.CheckWritable(src.index[key].obj).Ok? && IsFreeName(target, newName) && key !in src.used ==>
              r == Aborted((src.(index := src.index - {key}), target, s, f), AssertionFailed)
    ensures r.state.3.Valid() && Directory.Changed(s, r.state.2, src.index[key].realEntry)
    ensures r.Done? ==>
              var n := src.index[key];
              && r.state.0.index == src.index - {key} && r.state.0.used == src.used - {key}
              && r.state.0.dir == src.dir
              && r.state.1.index == target.index[Lower(newName) := n.(fileName := newName)]
              && r.state.1.used == (if register then target.used + {Lower(newName)} else target.used)
              && r.state.1.dir.entries == Listing(r.state.1)
              && DirEntry.SetAkaiName(s.cells[n.realEntry], newName) == Done(r.state.2.cells[n.realEntry], ())
  {
    var n := src.index[key];
    var ok := FsObject.CheckWritable(n.obj);
    if ok.Err? then Aborted((src, target, s, f), ok.fault)
    else if !IsFreeName(target, newName) then Aborted((src, target, s, f), NameInUse)
    else Transfer(src, target, s, f, key, newName, register)
  }

  /** The unlink from `src` and the link into the target of `moveTo`, once
      the new name is known to be free there. */
  function Transfer(src: LfnDir, target: LfnDir, s: Directory.Store, f: Fat.Fat, key: Str, newName: Str, register: bool)
    : (r: Partial<(LfnDir, LfnDir, Directory.Store, Fat.Fat), ()>)
    requires f.Valid() && Movable(src, s, key) && Directory.Resizable(target.dir, |target.index| + 1)
    requires IsFreeName(target, newName)
    ensures key !in src.used ==> r == Aborted((src.(index := src.index - {key}), target, s, f), AssertionFailed)
    ensures r.state.3.Valid() && Directory.Changed(s, r.state.2, src.index[key].realEntry)
    ensures r.Done? ==>
              var n := src.index[key];
              && r.state.0.index == src.index - {key} && r.state.0.used == src.used - {key}
              && r.state.0.dir == src.dir
              && Relinked(target, r.state.1, n.(fileName := newName), register)
              && DirEntry.SetAkaiName(s.cells[n.realEntry], newName) == Done(r.state.2.cells[n.realEntry], ())
  {
    var n := src.index[key];
    assert Lower(n.fileName) == key;
    var u := UnlinkChecked(src, n.fileName, DirEntry.IsFile(s.cells[n.realEntry]), n.realEntry);
    if u.Aborted? then Aborted((u.state, target, s, f), u.fault)
    else
      var src1 := u.state;
      assert src1.index == src.index - {key} && src1.used == src.used - {key} && src1.dir == src.dir;
      match LinkNamed(target, s, f, n.(fileName := newName), register)
      case Aborted((t1, s1, f1), e) => Aborted((src1, t1, s1, f1), e)
      case Done((t1, s1, f1), _) => Done((src1, t1, s1, f1), ())
  }

  /** `moveTo(target, newName)` with the new name registered as in use in
      the target. */
  function MoveTo(src: LfnDir, target: LfnDir, s: Directory.Store, f: Fat.Fat, key: Str, newName: Str)
    : (r: Partial<(LfnDir, LfnDir, Directory.Store, Fat.Fat), ()>)
    requires f.Valid() && Movable(src, s, key) && Directory.Resizable(target.dir, |target.index| + 1)
    ensures var n := src.index[key];
            FsObject.CheckWritable(n.obj).Err? ==> r == Aborted((src, target, s, f), FsObject.CheckWritable(n.obj).fault)
    ensures FsObject.CheckWritable(src.index[key].obj).Ok? && !IsFreeName(target, newName) ==>
              r == Aborted((src, target, s, f), NameInUse)
    ensures r.state.3.Valid() && Directory.Changed(s, r.state.2, src.index[key].realEntry)
    ensures r.Done? ==>
              var n := src.index[key];
              && r.state.0.index == src.index - {key} && r.state.0.used == src.used - {key}
              && r.state.0.dir == src.dir
              && r.state.1.index == target.index[Lower(newName) := n.(fileName := newName)]
              && r.state.1.used == target.used + {Lower(newName)}
              && r.state.1.dir.entries == Listing(r.state.1)
              && DirEntry.SetAkaiName(s.cells[n.realEntry], newName) == Done(r.state.2.cells[n.realEntry], ())
  {
    Move(src, target, s, f, key, newName, true)
  }

  /** `moveTo(target, newName)` as written: the new name is not put in use
      in the target, and an entry whose name is not in use in its
      directory fails `unlinkEntry`'s assert. */
  function MoveToAsWritten(src: LfnDir, target: LfnDir, s: Directory.Store, f: Fat.Fat, key: Str, newName: Str)
    : (r: Partial<(LfnDir, LfnDir, Directory.Store, Fat.Fat), ()>)
    requires f.Valid() && Movable(src, s, key) && Directory.Resizable(target.dir, |target.index| + 1)
    ensures FsObject.CheckWritable(src.index[key].obj).Ok? && IsFreeName(target, newName) && key !in src.used ==>
              r == Aborted((src.(index := src.index - {key}), target, s, f), AssertionFailed)
    ensures r.Done? ==>
              && r.state.0.index == src.index - {key} && r.state.0.used == src.used - {key}
              && r.state.1.index == target.index[Lower(newName) := src.index[key].(fileName := newName)]
              && r.state.1.used == target.used && IsFreeName(r.state.1, newName)
  {
    Move(src, target, s, f, key, newName, false)
  }

  // ------------------------------------------------------------ flushing

  /** The flush of every cached file, which checks that the file is still
      writable.  When several files are refused, an invalid one decides the
      fault. */
  function FlushFiles(files: map<Id, FatFile.File>): (r: Result<()>)
    ensures r.Ok? <==> forall id :: id in files ==> FatFile.Flush(files[id]).Ok?
    ensures r.Err? ==> exists id :: id in files && FatFile.Flush(files[id]) == r
  {
    if forall id :: id in files ==> FatFile.Flush(files[id]).Ok? then Ok(())
    else if exists id :: id in files && !files[id].obj.valid then Err(NotValid)
    else Err(ReadOnlyObject)
  }

  /** `dir->flush()`: the table written out, to the root region or to its
      chain.  The root table's whole flush buffer is written, so a label
      that fills the last slot pushes the end-of-listing record one slot
      past the table (`RootDirectory.FlushSpills`). */
  method WriteTable(d: LfnDir, s: Directory.Store, f: Fat.Fat, dev: Device.Device)
    returns (r: Partial<(LfnDir, Directory.Store, Fat.Fat, Device.Device), ()>)
    requires f.Valid() && Directory.Flushable(d.dir, s)
    requires d.dir.backend.ChainStore? ==> d.dir.backend.chain.clusterSize > 0
    ensures r.state.2.Valid() && r.state.0 == d.(dir := r.state.0.dir) && |r.state.3.data| == |dev.data|
    ensures r.state.0.dir.entries == d.dir.entries
    ensures r.Done? ==> r.state.1 == Directory.Cleaned(s, d.dir.entries)
    ensures d.dir.backend.RootRegion? ==> r.state.0 == d && r.state.2 == f
    ensures d.dir.backend.RootRegion? ==>
              (r.Done? <==> |d.dir.entries| <= d.dir.capacity
                            && d.dir.backend.offset + DirEntry.SIZE * RootSlots(d.dir) <= |dev.data|)
    ensures d.dir.backend.RootRegion? && r.Done? ==>
              var image := Directory.Image(d.dir, s, |d.dir.entries| < d.dir.capacity);
              var off := d.dir.backend.offset;
              && r.state.3.data[off..off + |image|] == image
              && r.state.3.data[..off] == dev.data[..off]
  {
    if d.dir.backend.RootRegion? {
      var w := RootDirectory.Flush(d.dir, s, dev);
      if w.Aborted? {
        return Aborted((d, w.state.0, f, w.state.1), w.fault);
      }
      r := Done((d, w.state.0, f, w.state.1), ());
    } else {
      var w := ChainDirectory.Flush(d.dir, s, f, dev);
      var (t, dir1, f1, dev1) := w.state;
      if w.Aborted? {
        return Aborted((d.(dir := dir1), t, f1, dev1), w.fault);
      }
      r := Done((d.(dir := dir1), t, f1, dev1), ());
    }
  }

  /** The slots the root table's flush buffer spans: the table, and one
      more when there is a label. */
  function RootSlots(d: Directory.Dir): (n: int)
    ensures n == d.capacity + Directory.Size(d) - |d.entries|
  {
    d.capacity + (if d.volumeLabel == [] then 0 else 1)
  }

  /** `flush()`: a writable directory flushes its files, rewrites its
      table from the index and writes the table out. */
  method Flush(d: LfnDir, s: Directory.Store, f: Fat.Fat, dev: Device.Device)
    returns (r: Partial<(LfnDir, Directory.Store, Fat.Fat, Device.Device), ()>)
    requires f.Valid() && Sound(d, s) && Directory.Resizable(d.dir, |d.index|)
    ensures FsObject.CheckWritable(d.obj).Err? ==> r == Aborted((d, s, f, dev), FsObject.CheckWritable(d.obj).fault)
    ensures FsObject.CheckWritable(d.obj).Ok? && FlushFiles(d.files).Err? ==> r == Aborted((d, s, f, dev), FlushFiles(d.files).fault)
    ensures r.state.2.Valid() && r.state.0 == d.(dir := r.state.0.dir) && |r.state.3.data| == |dev.data|
    ensures r.Done? ==> r.state.0.dir.entries == Listing(d) && r.state.1 == Directory.Cleaned(s, Listing(d))
    ensures d.dir.backend.RootRegion? ==>
              (r.Done? <==> && FsObject.CheckWritable(d.obj).Ok? && FlushFiles(d.files).Ok?
                            && |Listing(d)| <= d.dir.capacity
                            && d.dir.backend.offset + DirEntry.SIZE * RootSlots(d.dir) <= |dev.data|)
    ensures d.dir.backend.RootRegion? && r.Done? ==>
              && r.state.0 == d.(dir := d.dir.(entries := Listing(d))) && r.state.2 == f
              && r.state.3.data[..d.dir.backend.offset] == dev.data[..d.dir.backend.offset]
  {
    var ok := FsObject.CheckWritable(d.obj);
    if ok.Err? {
      return Aborted((d, s, f, dev), ok.fault);
    }
    var flushed := FlushFiles(d.files);
    if flushed.Err? {
      return Aborted((d, s, f, dev), flushed.fault);
    }
    var u := UpdateLfn(d, f);
    var (d1, f1) := u.state;
    if u.Aborted? {
      return Aborted((d1, s, f1, dev), u.fault);
    }
    ListingHeld(d, s);
    r := WriteTable(d1, s, f1, dev);
  }

  // ------------------------------------------------------------ sub-directories

  /** What a table keeps through resizing: a capacity whose flush buffer
      an `int` can size, and a cluster size a chain can work with. */
  predicate Roomy(dir: Directory.Dir)
  {
    && 0 <= dir.capacity && (dir.capacity + 1) * DirEntry.SIZE <= INT_MAX
    && (dir.backend.ChainStore? ==> 0 < dir.backend.chain.clusterSize <= 0x100_0000)
  }

  /** Resizing keeps a table roomy: a chain directory never takes more than
      its 2 MiB limit plus a cluster. */
  lemma ChangeSizeRoomy(dir: Directory.Dir, f: Fat.Fat, n: int)
    requires f.Valid() && Directory.Resizable(dir, n) && Roomy(dir)
    ensures Roomy(Directory.ChangeSize(dir, f, n).state.0)
  {
  }

  /** Adding an entry keeps a table roomy. */
  lemma AddEntryRoomy(dir: Directory.Dir, f: Fat.Fat, id: Id)
    requires f.Valid() && Directory.Resizable(dir, dir.capacity + 1) && Roomy(dir)
    ensures Roomy(Directory.AddEntry(dir, f, id).state.0)
  {
    if Directory.Size(dir) == dir.capacity {
      ChangeSizeRoomy(dir, f, dir.capacity + 1);
    }
  }

  /** Removing an entry keeps a table roomy. */
  lemma RemoveEntryRoomy(dir: Directory.Dir, f: Fat.Fat, id: Id)
    requires f.Valid() && Directory.Resizable(dir, Directory.Size(dir)) && Roomy(dir)
    ensures Roomy(Directory.RemoveEntry(dir, f, id).state.0)
  {
    var d1 := dir.(entries := Directory.EraseFirst(dir.entries, id));
    ChangeSizeRoomy(d1, f, Directory.Size(d1));
  }

  /** The table takes the new sub-directory's entry `id`.  When it cannot,
      the sub-directory's chain, which starts at `start`, is freed and the
      entry taken out again before the fault is passed on. */
  function Attach(d: LfnDir, f: Fat.Fat, id: Id, start: int): (r: Partial<(LfnDir, Fat.Fat), ()>)
    requires f.Valid() && Directory.Resizable(d.dir, d.dir.capacity + 1) && Roomy(d.dir)
    ensures r.state.1.Valid() && r.state.0 == d.(dir := r.state.0.dir) && Roomy(r.state.0.dir)
    ensures r.state.0.dir == d.dir.(entries := r.state.0.dir.entries, capacity := r.state.0.dir.capacity,
                                    backend := r.state.0.dir.backend)
    ensures r.state.0.dir.backend.ChainStore? == d.dir.backend.ChainStore?
    ensures r.Done? <==> Directory.AddEntry(d.dir, f, id).Done?
    ensures r.Done? ==> r.state.0.dir.entries == d.dir.entries + [id]
    ensures r.Aborted? && id !in d.dir.entries ==> r.state.0.dir.entries == d.dir.entries
  {
    AddEntryRoomy(d.dir, f, id);
    match Directory.AddEntry(d.dir, f, id)
    case Done((dir1, f1), _) => Done((d.(dir := dir1), f1), ())
    case Aborted((dir1, f1), e) =>
      var u := Undo(dir1, f1, id, start, d.clusterSize, d.dataOffset);
      Aborted((d.(dir := u.state.0), u.state.1), if u.Aborted? then u.fault else e)
  }

  /** The roll-back of a failed `addEntry`: the chain starting at `start`
      is freed and entry `id` taken out of the table.  The fault is the
      roll-back's own, when it has one. */
  function Undo(dir: Directory.Dir, f: Fat.Fat, id: Id, start: int, clusterSize: int, dataOffset: int)
    : (r: Partial<(Directory.Dir, Fat.Fat), ()>)
    requires f.Valid() && Directory.Resizable(dir, Directory.Size(dir)) && Roomy(dir)
    ensures r.state.1.Valid() && Roomy(r.state.0)
    ensures r.state.0 == dir.(entries := r.state.0.entries, capacity := r.state.0.capacity, backend := r.state.0.backend)
    ensures r.state.0.backend.ChainStore? == dir.backend.ChainStore?
    ensures id !in dir.entries ==> r.state.0.entries == dir.entries
  {
    match ClusterChain.Open(f, start, clusterSize, dataOffset)
    case Err(e) => Aborted((dir, f), e)
    case Ok(c) =>
      match ClusterChain.SetChainLength(f, c, 0)
      case Aborted((f1, _), e) => Aborted((dir, f1), e)
      case Done((f1, _), _) =>
        RemoveEntryRoomy(dir, f1, id);
        Directory.RemoveEntry(dir, f1, id)
  }

  /** The new sub-directory's entry: `createSub` allocates and writes its
      first cluster, the name must make a short name, and the entry takes
      the name as its Akai name and goes into the store. */
  method MakeSub(d: LfnDir, s: Directory.Store, f: Fat.Fat, dev: Device.Device, name: Str)
    returns (r: Partial<(Directory.Store, Fat.Fat, Device.Device), Id>)
    requires s.Valid() && f.Valid() && 0 < d.clusterSize <= 0x100_0000
    ensures r.state.1.Valid() && |r.state.2.data| == |dev.data|
    ensures r.Aborted? ==> r.state.0 == s
    ensures r.Done? ==> ShortName.FromString(name).Ok? && DirEntry.SetAkaiName(DirEntry.Create(true), name).Done?
    ensures r.Done? ==>
              var id := r.value;
              && id !in s.cells && r.state.0.Valid() && id in r.state.0.cells
              && r.state.0.cells == s.cells[id := r.state.0.cells[id]]
              && var e := r.state.0.cells[id];
                 && DirEntry.IsDirectory(e) && DirEntry.GetLength(e) == 0
                 && Fat.FIRST_CLUSTER <= DirEntry.GetStartCluster(e) < f.lastClusterIndex
                 && StrOf(e.data[..11]) == ShortName.FromString(DirEntry.AkaiFields(name).0).value.nameBytes
  {
    var made := ChainDirectory.CreateSub(d.dir, f, dev, d.clusterSize, d.dataOffset);
    var (f1, dev1) := made.state;
    if made.Aborted? {
      return Aborted((s, f1, dev1), made.fault);
    }
    var sn := ShortName.FromString(name);
    if sn.Err? {
      return Aborted((s, f1, dev1), sn.fault);
    }
    var sub := made.value;
    var named := DirEntry.SetAkaiName(sub, name);
    if named.Aborted? {
      return Aborted((s, f1, dev1), named.fault);
    }
    assert DirEntry.IsDirectory(named.state) && DirEntry.GetLength(named.state) == 0;
    assert DirEntry.GetStartCluster(named.state) == DirEntry.GetStartCluster(sub);
    var (s1, id) := Directory.Alloc(s, named.state);
    r := Done((s1, f1, dev1), id);
  }

  /** The body of `addDirectory(name)`: in a writable directory, a name
      not in use is trimmed, a sub-directory is created for it and added
      to the table, the trimmed name is indexed (and put in use when
      `register` is set), and the directory is flushed.  When the table
      cannot take the entry, the sub-directory's chain is freed again. */
  method MakeDirectory(d: LfnDir, s: Directory.Store, f: Fat.Fat, dev: Device.Device, name: Str, register: bool)
    returns (r: Partial<(LfnDir, Directory.Store, Fat.Fat, Device.Device), Id>)
    requires s.Valid() && f.Valid() && Sound(d, s) && Covered(d) && Indexed(d) && Directory.Holds(s, d.dir.entries)
    requires 0 < d.clusterSize <= 0x100_0000
    requires Directory.Resizable(d.dir, d.dir.capacity + 1) && Directory.Resizable(d.dir, |d.index| + 1)
    ensures FsObject.CheckWritable(d.obj).Err? ==> r == Aborted((d, s, f, dev), FsObject.CheckWritable(d.obj).fault)
    ensures FsObject.CheckWritable(d.obj).Ok? && !IsFreeName(d, name) ==> r == Aborted((d, s, f, dev), NameInUse)
    ensures r.state.2.Valid() && |r.state.3.data| == |dev.data|
    ensures r.Done? ==>
              var trimmed := StrUtil.TrimDefault(name);
              var id := r.value;
              && id !in s.cells && id in r.state.1.cells && DirEntry.IsDirectory(r.state.1.cells[id])
              && r.state.0.index == d.index[Lower(trimmed) := LfnEntry.Named(trimmed, id, FsObject.Create(false))]
              && r.state.0.used == (if register then d.used + {Lower(trimmed)} else d.used)
              && id in r.state.0.dirs
              && r.state.0.dir.entries == Listing(r.state.0)
              && Covered(r.state.0) && Indexed(r.state.0) && Linked(r.state.0, r.state.1)
              && (register && Tracked(d) ==> Tracked(r.state.0))
    ensures r.Aborted? && r.state.0.index == d.index ==> r.state.0.dir.entries == d.dir.entries
  {
    var ok := FsObject.CheckWritable(d.obj);
    if ok.Err? {
      return Aborted((d, s, f, dev), ok.fault);
    }
    var unique := CheckUniqueName(d, name);
    if unique.Err? {
      return Aborted((d, s, f, dev), unique.fault);
    }
    var trimmed := StrUtil.TrimDefault(name);
    var placed := Place(d, s, f, dev, trimmed);
    var (d1, s1, f1, dev1) := placed.state;
    if placed.Aborted? {
      return Aborted(placed.state, placed.fault);
    }
    var id := placed.value;
    Fresh(d1, s, trimmed, id);
    r := Settle(d1, s1, f1, dev1, trimmed, id, register);
    if r.Done? {
      CleanedKeepsKind(s1, r.state.0.dir.entries, id);
    }
  }

  /** `addDirectory(name)` with the trimmed name registered as in use,
      which keeps the used set equal to the index's keys. */
  method AddDirectory(d: LfnDir, s: Directory.Store, f: Fat.Fat, dev: Device.Device, name: Str)
    returns (r: Partial<(LfnDir, Directory.Store, Fat.Fat, Device.Device), Id>)
    requires s.Valid() && f.Valid() && Sound(d, s) && Covered(d) && Indexed(d) && Directory.Holds(s, d.dir.entries)
    requires 0 < d.clusterSize <= 0x100_0000
    requires Directory.Resizable(d.dir, d.dir.capacity + 1) && Directory.Resizable(d.dir, |d.index| + 1)
    ensures FsObject.CheckWritable(d.obj).Err? ==> r == Aborted((d, s, f, dev), FsObject.CheckWritable(d.obj).fault)
    ensures FsObject.CheckWritable(d.obj).Ok? && !IsFreeName(d, name) ==> r == Aborted((d, s, f, dev), NameInUse)
    ensures r.state.2.Valid() && |r.state.3.data| == |dev.data|
    ensures r.Done? ==>
              var trimmed := StrUtil.TrimDefault(name);
              var id := r.value;
              && id !in s.cells && id in r.state.1.cells && DirEntry.IsDirectory(r.state.1.cells[id])
              && r.state.0.index == d.index[Lower(trimmed) := LfnEntry.Named(trimmed, id, FsObject.Create(false))]
              && r.state.0.used == d.used + {Lower(trimmed)}
              && id in r.state.0.dirs
              && r.state.0.dir.entries == Listing(r.state.0)
              && Covered(r.state.0) && Indexed(r.state.0) && Linked(r.state.0, r.state.1)
              && (Tracked(d) ==> Tracked(r.state.0))
    ensures r.Aborted? && r.state.0.index == d.index ==> r.state.0.dir.entries == d.dir.entries
  {
    r := MakeDirectory(d, s, f, dev, name, true);
  }

  /** `addDirectory(name)` as written: the trimmed name is indexed but not
      put in use, so it stays free and the same name can be added again. */
  method AddDirectoryAsWritten(d: LfnDir, s: Directory.Store, f: Fat.Fat, dev: Device.Device, name: Str)
    returns (r: Partial<(LfnDir, Directory.Store, Fat.Fat, Device.Device), Id>)
    requires s.Valid() && f.Valid() && Sound(d, s) && Covered(d) && Indexed(d) && Directory.Holds(s, d.dir.entries)
    requires 0 < d.clusterSize <= 0x100_0000
    requires Directory.Resizable(d.dir, d.dir.capacity + 1) && Directory.Resizable(d.dir, |d.index| + 1)
    ensures FsObject.CheckWritable(d.obj).Err? ==> r == Aborted((d, s, f, dev), FsObject.CheckWritable(d.obj).fault)
    ensures FsObject.CheckWritable(d.obj).Ok? && !IsFreeName(d, name) ==> r == Aborted((d, s, f, dev), NameInUse)
    ensures r.Done? ==>
              var trimmed := StrUtil.TrimDefault(name);
              && r.state.0.index == d.index[Lower(trimmed) := LfnEntry.Named(trimmed, r.value, FsObject.Create(false))]
              && r.state.0.used == d.used
              && Covered(r.state.0) && Indexed(r.state.0)
              && (IsFreeName(d, trimmed) ==> IsFreeName(r.state.0, trimmed) && !Tracked(r.state.0))
  {
    r := MakeDirectory(d, s, f, dev, name, false);
  }

  /** The middle of `addDirectory`: the sub-directory made and its entry
      added to the table, or everything but the store rolled back. */
  method Place(d: LfnDir, s: Directory.Store, f: Fat.Fat, dev: Device.Device, name: Str)
    returns (r: Partial<(LfnDir, Directory.Store, Fat.Fat, Device.Device), Id>)
    requires s.Valid() && f.Valid() && Roomy(d.dir) && Directory.Holds(s, d.dir.entries)
    requires 0 < d.clusterSize <= 0x100_0000 && Directory.Resizable(d.dir, d.dir.capacity + 1)
    ensures r.state.2.Valid() && |r.state.3.data| == |dev.data|
    ensures r.state.0 == d.(dir := r.state.0.dir) && Roomy(r.state.0.dir)
    ensures r.state.0.dir == d.dir.(entries := r.state.0.dir.entries, capacity := r.state.0.dir.capacity,
                                    backend := r.state.0.dir.backend)
    ensures r.state.0.dir.backend.ChainStore? == d.dir.backend.ChainStore?
    ensures r.Aborted? ==> r.state.0.dir.entries == d.dir.entries
    ensures r.Done? ==>
              var id := r.value;
              && id !in s.cells && r.state.1.Valid() && id in r.state.1.cells
              && r.state.1.cells == s.cells[id := r.state.1.cells[id]]
              && DirEntry.IsDirectory(r.state.1.cells[id])
              && r.state.0.dir.entries == d.dir.entries + [id]
  {
    var made := MakeSub(d, s, f, dev, name);
    var (s1, f1, dev1) := made.state;
    if made.Aborted? {
      return Aborted((d, s1, f1, dev1), made.fault);
    }
    var id := made.value;
    assert id !in d.dir.entries;
    var attached := Attach(d, f1, id, DirEntry.GetStartCluster(s1.cells[id]));
    var (d1, f2) := attached.state;
    if attached.Aborted? {
      return Aborted((d1, s1, f2, dev1), attached.fault);
    }
    r := Done((d1, s1, f2, dev1), id);
  }

  /** The tail of `addDirectory`: the trimmed name indexed and registered,
      the sub-directory remembered, and the directory flushed. */
  method Settle(d: LfnDir, s: Directory.Store, f: Fat.Fat, dev: Device.Device, name: Str, id: Id, register: bool)
    returns (r: Partial<(LfnDir, Directory.Store, Fat.Fat, Device.Device), Id>)
    requires f.Valid() && Roomy(d.dir) && Linked(d, s) && id in s.cells && Covered(d) && Indexed(d)
    requires |d.dir.volumeLabel| <= DirEntry.MAX_LABEL_LENGTH && Directory.Resizable(d.dir, |d.index| + 1)
    ensures r.state.2.Valid() && |r.state.3.data| == |dev.data|
    ensures r.state.0.index == d.index[Lower(name) := LfnEntry.Named(name, id, FsObject.Create(false))]
    ensures r.Done? ==>
              && r.value == id && r.state.1 == Directory.Cleaned(s, r.state.0.dir.entries)
              && r.state.0.used == (if register then d.used + {Lower(name)} else d.used)
              && id in r.state.0.dirs
              && r.state.0.dir.entries == Listing(r.state.0)
              && Covered(r.state.0) && Indexed(r.state.0) && Linked(r.state.0, r.state.1)
              && (register && Tracked(d) ==> Tracked(r.state.0))
  {
    var key := Lower(name);
    LowerIdempotent(name);
    var d1 := d.(index := d.index[key := LfnEntry.Named(name, id, FsObject.Create(false))],
                 used := if register then d.used + {key} else d.used, dirs := d.dirs + {id});
    assert Covered(d1) && Indexed(d1) && Linked(d1, s);
    assert register && Tracked(d) ==> Tracked(d1);
    var flushed := Flush(d1, s, f, dev);
    if flushed.Aborted? {
      return Aborted(flushed.state, flushed.fault);
    }
    Rehomed(d1, flushed.state.0, s, flushed.state.1);
    r := Done(flushed.state, id);
  }

  /** A directory whose table alone changed, over a store with the same
      objects, keeps its names' invariants and its listing. */
  lemma Rehomed(d: LfnDir, e: LfnDir, s: Directory.Store, t: Directory.Store)
    requires e == d.(dir := e.dir) && t.cells.Keys == s.cells.Keys
    ensures Tracked(d) ==> Tracked(e)
    ensures Covered(d) ==> Covered(e)
    ensures Indexed(d) ==> Indexed(e)
    ensures Linked(d, s) ==> Linked(e, t)
    ensures Listing(e) == Listing(d)
  {
  }

  /** Indexing a name for an entry not yet in the store changes the index. */
  lemma Fresh(d: LfnDir, s: Directory.Store, name: Str, id: Id)
    requires Linked(d, s) && id !in s.cells
    ensures d.index[Lower(name) := LfnEntry.Named(name, id, FsObject.Create(false))] != d.index
  {
    var key := Lower(name);
    if key in d.index {
      assert d.index[key].realEntry in s.cells;
    }
  }

  /** Marking objects clean leaves what they are. */
  lemma CleanedKeepsKind(s: Directory.Store, ids: seq<Id>, id: Id)
    requires id in s.cells
    ensures id in Directory.Cleaned(s, ids).cells
    ensures DirEntry.IsDirectory(Directory.Cleaned(s, ids).cells[id]) == DirEntry.IsDirectory(s.cells[id])
  {
  }
}

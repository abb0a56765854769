/**
 The two-level cache of exclusion decisions.

 A directory is excluded if it holds a tag file with a given header.  Decisions are kept in a
 small map that is spilled into a database when it is full; several caches, one for each tag
 specification, may share the database.  A failure of the database is remembered for good.
 */
module MarkerCache {
  import opened Wrappers

  // ---------------------------------------------------------------------------------------
  // The direct check
  // ---------------------------------------------------------------------------------------

  /** What is found under a name in a directory. */
  datatype TagFile = Absent | Inaccessible | Present(opens: bool, content: string)

  /** The file system, which does not change. */
  type FileSystem = map<(string, string), TagFile>

  function FileAt(fs: FileSystem, dir: string, name: string): TagFile {
    if (dir, name) in fs then fs[(dir, name)] else Absent
  }

  /** The directory check without any cache. */
  function DirExcluded(fs: FileSystem, dir: string, tagName: string, header: string): bool {
    match FileAt(fs, dir, tagName)
    case Absent => false
    case Inaccessible => false
    case Present(opens, content) => header == "" || (opens && header <= content)
  }

  /** The directory holds a file of that name, and the file begins with the header. */
  ghost predicate HasTag(fs: FileSystem, dir: string, name: string, header: string) {
    && (dir, name) in fs && fs[(dir, name)].Present?
    && var file := fs[(dir, name)];
    && (header != "" ==> file.opens && |file.content| >= |header|)
    && forall i :: 0 <= i < |header| ==> file.content[i] == header[i]
  }

  lemma ExcludedByTag(fs: FileSystem, dir: string, name: string, header: string)
    ensures DirExcluded(fs, dir, name, header) <==> HasTag(fs, dir, name, header)
  {
    match FileAt(fs, dir, name)
    case Absent =>
    case Inaccessible =>
    case Present(opens, content) =>
      if |content| >= |header| {
        assert header <= content <==> forall i :: 0 <= i < |header| ==> content[i] == header[i];
      }
  }

  /** The position of the first colon. */
  function Colon(spec: string): (i: nat)
    ensures i <= |spec| && (i < |spec| ==> spec[i] == ':') && forall k :: 0 <= k < i ==> spec[k] != ':'
  {
    if spec == "" || spec[0] == ':' then 0 else 1 + Colon(spec[1..])
  }

  datatype Tag = Tag(name: string, header: string)

  /** A specification is a name, or a name and a header after the first colon. */
  function ParseSpec(spec: string): (r: Option<Tag>)
    ensures r.None? <==> spec == "" || spec[0] == ':'
    ensures r.Some? ==> r.value.name != "" && ':' !in r.value.name
    ensures r.Some? ==> spec == r.value.name + ":" + r.value.header || (spec == r.value.name && r.value.header == "")
  {
    var i := Colon(spec);
    if i == 0 then None
    else if i < |spec| then Some(Tag(spec[..i], spec[i + 1..]))
    else Some(Tag(spec, ""))
  }

  /** The decision for a directory under a specification. */
  function Decision(fs: FileSystem, spec: string, dir: string): bool {
    match ParseSpec(spec)
    case None => false
    case Some(tag) => DirExcluded(fs, dir, tag.name, tag.header)
  }

  // ---------------------------------------------------------------------------------------
  // Keys and values of the database
  // ---------------------------------------------------------------------------------------

  const NUL: char := '\0'

  function Key(prefix: string, dir: string): string {
    prefix + [NUL] + dir
  }

  predicate NoNul(text: string) {
    NUL !in text
  }

  /** Two different decisions share a key only if a directory and a specification hold a NUL.  No
      directory of a file system does, so a key determines the specification and the directory. */
  lemma ClashNeedsNul(prefix: string, dir: string, prefix': string, dir': string)
    requires Key(prefix, dir) == Key(prefix', dir')
    ensures (prefix == prefix' && dir == dir') || (!(NoNul(dir) && NoNul(dir')) && !(NoNul(prefix) && NoNul(prefix')))
  {
    if NoNul(dir) && NoNul(dir') {
      KeyInjective(prefix, dir, prefix', dir');
    }
    if NoNul(prefix) && NoNul(prefix') {
      var k := Key(prefix, dir);
      assert k[|prefix|] == NUL && k[|prefix'|] == NUL;
      assert forall i :: 0 <= i < |prefix| ==> k[i] == prefix[i] && prefix[i] in prefix;
      assert forall i :: 0 <= i < |prefix'| ==> k[i] == prefix'[i] && prefix'[i] in prefix';
      KeyParts(prefix, dir);
      KeyParts(prefix', dir');
    }
  }

  lemma KeyParts(prefix: string, dir: string)
    ensures Key(prefix, dir)[..|prefix|] == prefix && Key(prefix, dir)[|prefix| + 1..] == dir
  {
  }

  lemma LastNul(prefix: string, dir: string)
    requires NoNul(dir)
    ensures |Key(prefix, dir)| > |prefix| && Key(prefix, dir)[|prefix|] == NUL
    ensures forall i :: |prefix| < i < |Key(prefix, dir)| ==> Key(prefix, dir)[i] != NUL
  {
    var k := Key(prefix, dir);
    forall i | |prefix| < i < |k| ensures k[i] != NUL {
      assert k[i] == dir[i - |prefix| - 1];
    }
  }

  /** If the directories hold no NUL, the last NUL of a key ends the specification. */
  lemma KeyInjective(prefix: string, dir: string, prefix': string, dir': string)
    requires NoNul(dir) && NoNul(dir') && Key(prefix, dir) == Key(prefix', dir')
    ensures prefix == prefix' && dir == dir'
  {
    LastNul(prefix, dir);
    LastNul(prefix', dir');
    KeyParts(prefix, dir);
    KeyParts(prefix', dir');
  }

  function Encode(rejected: bool): seq<nat> {
    if rejected then [1] else [0]
  }

  predicate Decodable(v: seq<nat>) {
    |v| == 1 && v[0] <= 1
  }

  type Database = map<string, seq<nat>>

  /** Every value in the database is the decision its key stands for. */
  ghost predicate Truthful(db: Database, fs: FileSystem) {
    forall prefix, dir :: NoNul(dir) && Key(prefix, dir) in db ==> db[Key(prefix, dir)] == Encode(Decision(fs, prefix, dir))
  }

  lemma PutTruthful(db: Database, fs: FileSystem, prefix: string, dir: string)
    requires Truthful(db, fs) && NoNul(dir)
    ensures Truthful(db[Key(prefix, dir) := Encode(Decision(fs, prefix, dir))], fs)
  {
    var db' := db[Key(prefix, dir) := Encode(Decision(fs, prefix, dir))];
    forall p, d | NoNul(d) && Key(p, d) in db' ensures db'[Key(p, d)] == Encode(Decision(fs, p, d)) {
      if Key(p, d) == Key(prefix, dir) {
        KeyInjective(p, d, prefix, dir);
      }
    }
  }

  // ---------------------------------------------------------------------------------------
  // The database level
  // ---------------------------------------------------------------------------------------

  /** How a read of the database goes; damaged bytes are not the encoding of a decision. */
  datatype Read = Works | Fails | Damaged(bytes: seq<nat>)

  predicate CanHappen(read: Read) {
    read.Damaged? ==> read.bytes != [0] && read.bytes != [1]
  }

  class MarkerStore {
    var database: Option<Database>
    var err: bool
    const limit: nat
    const policy: bool
    const fs: FileSystem

    ghost predicate Valid()
      reads this
    {
      limit >= 1 && (database.Some? ==> Truthful(database.value, fs))
    }

    constructor (limit: int, policy: bool, fs: FileSystem)
      ensures Valid() && !err && this.policy == policy && this.fs == fs
      ensures this.limit == if limit < 1 then 1 else limit
    {
      this.database, this.err, this.policy, this.fs := None, false, policy, fs;
      this.limit := if limit < 1 then 1 else limit;
    }

    /** Looks a decision up.  The error is set exactly if the read fails or brings back damaged bytes. */
    method Get(prefix: string, dir: string, read: Read) returns (rejected: bool, found: bool)
      requires Valid() && NoNul(dir) && CanHappen(read)
      modifies `err
      ensures Valid()
      ensures err <==>
        || old(err)
        || (database.Some? && (read.Fails? || (read.Damaged? && Key(prefix, dir) in database.value)))
      ensures err ==> rejected && found
      ensures !err && found ==> rejected == Decision(fs, prefix, dir)
      ensures !err ==> (found <==> database.Some? && Key(prefix, dir) in database.value)
      ensures !found ==> !rejected
    {
      if err {
        return true, true;
      }
      if database.None? {
        return false, false;
      }
      if !read.Fails? && Key(prefix, dir) !in database.value {
        return false, false;
      }
      if read.Fails? {
        err := true;
        return true, true;
      }
      var value := if read.Damaged? then read.bytes else database.value[Key(prefix, dir)];
      if !Decodable(value) {
        err := true;
        return true, true;
      }
      return value[0] == 1, true;
    }

    /** Writes decisions in any order.  If opening the database or one of the writes fails, some stay
        unwritten and the error is set; otherwise it is not. */
    method Spill(prefix: string, values: map<string, bool>, opens: bool, failing: set<string>)
      requires Valid() && forall dir :: dir in values ==> NoNul(dir)
      requires !err ==> forall dir :: dir in values ==> values[dir] == Decision(fs, prefix, dir)
      modifies `err, `database
      ensures Valid()
      ensures err <==> old(err) || (old(database).None? && !opens) || exists dir :: dir in values && dir in failing
      ensures !err ==> database.Some? && forall dir :: dir in values ==> Key(prefix, dir) in database.value
      ensures !err && old(database).Some? ==> old(database).value.Keys <= database.value.Keys
    {
      if err {
        return;
      }
      if database.None? {
        if !opens {
          err := true;
          return;
        }
        database := Some(map[]);
      }
      var left := values.Keys;
      while left != {}
        invariant Valid() && !err && database.Some? && left <= values.Keys
        invariant forall dir :: dir in values && dir !in left ==> dir !in failing && Key(prefix, dir) in database.value
        invariant old(database).Some? ==> old(database).value.Keys <= database.value.Keys
        decreases left
      {
        var dir :| dir in left;
        if dir in failing {
          err := true;
          return;
        }
        PutTruthful(database.value, fs, prefix, dir);
        database := Some(database.value[Key(prefix, dir) := if values[dir] then [1] else [0]]);
        left := left - {dir};
      }
    }
  }

  // ---------------------------------------------------------------------------------------
  // The memory level
  // ---------------------------------------------------------------------------------------

  class RejectionCache {
    var m: map<string, bool>
    const store: MarkerStore?
    const prefix: string
    const fs: FileSystem

    /** Nothing failed so far. */
    ghost predicate Sound()
      reads store
    {
      store == null || !store.err
    }

    ghost predicate Valid()
      reads this, store
    {
      && (forall dir :: dir in m ==> NoNul(dir))
      && (store != null ==> store.Valid() && store.fs == fs && |m| <= store.limit && (store.policy ==> m == map[]))
      && (Sound() ==> forall dir :: dir in m ==> m[dir] == Decision(fs, prefix, dir))
    }

    constructor (spec: string, store: MarkerStore?, fs: FileSystem)
      requires store != null ==> store.Valid() && store.fs == fs
      ensures Valid() && m == map[] && prefix == spec && this.store == store && this.fs == fs
    {
      this.m, this.prefix, this.store, this.fs := map[], spec, store, fs;
    }

    /** The decision is in memory or in the database. */
    ghost predicate Knows(dir: string)
      reads this, store
    {
      dir in m || (store != null && store.database.Some? && Key(prefix, dir) in store.database.value)
    }

    /** Looks in memory and then in the database, from which a decision is brought back. */
    method Get(dir: string) returns (rejected: bool, found: bool)
      requires Valid() && NoNul(dir)
      modifies this, store
      ensures Valid() && (!old(Sound()) ==> !Sound())
      ensures Sound() && found ==> rejected == Decision(fs, prefix, dir)
      ensures Sound() ==> (found <==> old(Knows(dir))) && forall d :: old(Knows(d)) ==> Knows(d)
      ensures !old(Sound()) && dir !in old(m) ==> rejected && found
      ensures !found ==> !rejected
    {
      if dir in m {
        return m[dir], true;
      }
      if store == null {
        return false, false;
      }
      var read: Read := *;
      rejected, found := store.Get(prefix, dir, if CanHappen(read) then read else Works);
      if found {
        Store(dir, rejected);
      }
    }

    /** Remembers a decision; a full map goes to the database first. */
    method Store(dir: string, rejected: bool)
      requires Valid() && NoNul(dir) && (Sound() ==> rejected == Decision(fs, prefix, dir))
      modifies this, store
      ensures Valid() && (!old(Sound()) ==> !Sound())
      ensures Sound() ==> Knows(dir) && forall d :: old(Knows(d)) ==> Knows(d)
    {
      var opens: bool, failing: set<string> := *, *;
      if store != null && store.policy {
        store.Spill(prefix, map[dir := rejected], opens, failing);
        return;
      }
      if store != null && |m| >= store.limit {
        store.Spill(prefix, m, opens, failing);
        m := map[];
      }
      m := m[dir := rejected];
    }

    /** Whether a file is excluded.  Other calls on this cache and on the caches sharing its database
        may come in between.  The answer is that of the direct check unless the database failed. */
    method IsExcluded(peers: seq<RejectionCache>, dir: string, base: string) returns (excluded: bool)
      requires AllValid(peers) && this in peers && ParseSpec(prefix).Some? && NoNul(dir)
      modifies peers, Stores(peers)
      ensures AllValid(peers) && (!old(Sound()) ==> !Sound())
      ensures base == ParseSpec(prefix).value.name ==> !excluded
      ensures base != ParseSpec(prefix).value.name && Sound() ==> excluded == Decision(fs, prefix, dir)
      ensures base != ParseSpec(prefix).value.name && Sound() ==>
        (excluded <==> HasTag(fs, dir, ParseSpec(prefix).value.name, ParseSpec(prefix).value.header))
    {
      var tag := ParseSpec(prefix).value;
      ExcludedByTag(fs, dir, tag.name, tag.header);
      if tag.name == "" || base == tag.name {
        return false;
      }
      Others(peers);
      var rejected, visited := GetAmong(peers, this, dir);
      Others(peers);
      if visited {
        return rejected;
      }
      rejected, visited := GetAmong(peers, this, dir);
      if !visited {
        Others(peers);
        rejected := DirExcluded(fs, dir, tag.name, tag.header);
        StoreAmong(peers, this, dir, rejected);
      }
      Others(peers);
      return rejected;
    }
  }

  // ---------------------------------------------------------------------------------------
  // Caches that share databases
  // ---------------------------------------------------------------------------------------

  ghost function Stores(peers: seq<RejectionCache>): set<MarkerStore> {
    set c | c in peers && c.store != null :: c.store
  }

  ghost predicate AllValid(peers: seq<RejectionCache>)
    reads peers, Stores(peers)
  {
    forall c :: c in peers ==> c.Valid()
  }

  twostate predicate FailuresStay(peers: seq<RejectionCache>)
    reads peers, Stores(peers)
  {
    forall c :: c in peers && !old(c.Sound()) ==> !c.Sound()
  }

  method GetAmong(peers: seq<RejectionCache>, c: RejectionCache, dir: string) returns (rejected: bool, found: bool)
    requires AllValid(peers) && c in peers && NoNul(dir)
    modifies peers, Stores(peers)
    ensures AllValid(peers) && FailuresStay(peers)
    ensures c.Sound() && found ==> rejected == Decision(c.fs, c.prefix, dir)
  {
    assert c.store != null ==> c.store in Stores(peers);
    rejected, found := c.Get(dir);
  }

  method StoreAmong(peers: seq<RejectionCache>, c: RejectionCache, dir: string, rejected: bool)
    requires AllValid(peers) && c in peers && NoNul(dir) && (c.Sound() ==> rejected == Decision(c.fs, c.prefix, dir))
    modifies peers, Stores(peers)
    ensures AllValid(peers) && FailuresStay(peers)
  {
    assert c.store != null ==> c.store in Stores(peers);
    c.Store(dir, rejected);
  }

  /** Whatever other calls do: any number of lookups and of right decisions, on any of the caches. */
  method Others(peers: seq<RejectionCache>)
    requires AllValid(peers)
    modifies peers, Stores(peers)
    ensures AllValid(peers) && FailuresStay(peers)
  {
    var steps: int := *;
    while steps > 0
      invariant AllValid(peers) && FailuresStay(peers)
    {
      var which: int := *;
      var dir: string := *;
      var looksUp: bool := *;
      if 0 <= which < |peers| && NoNul(dir) {
        var c := peers[which];
        if looksUp {
          var _, _ := GetAmong(peers, c, dir);
        } else {
          StoreAmong(peers, c, dir, Decision(c.fs, c.prefix, dir));
        }
      }
      steps := steps - 1;
    }
  }
}

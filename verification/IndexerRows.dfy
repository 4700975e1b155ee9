/** Which rows a directory tree has, entry by entry.

    An address says which entry to take in the root, which in the directory that is, and so on. The rows
    of a tree are those of the addresses that lead somewhere worth a row, each once, in walking order. */
module IndexerRows {
  import opened Indexer
  import opened Wrappers

  type Address = seq<nat>

  /** The address leads through readable directories to a directory, or to a regular file with metadata
      of at most 10 MB, and no name on the way starts with a dot unless hidden entries are wanted. */
  predicate Leads(t: Tree, a: Address, includeHidden: bool)
    decreases |a|
  {
    && a != [] && t.Listing? && a[0] < |t.entries|
    && var e := t.entries[a[0]];
       && e.Found? && (includeHidden || e.name == "" || e.name[0] != '.')
       && (if |a| == 1 then
             e.kind.Directory?
             || (e.kind.Regular? && e.kind.meta.Some? && e.kind.meta.value.size <= 10 * 1024 * 1024)
           else
             e.kind.Directory? && Leads(e.kind.sub, a[1..], includeHidden))
  }

  /** The entry at the end of an address, and its directory, in full. */
  function RowAt(t: Tree, dir: string, a: Address, includeHidden: bool): FileRow
    requires Leads(t, a, includeHidden)
    decreases |a|
  {
    var e := t.entries[a[0]];
    if |a| == 1 then
      FileRow(e.name, dir + "/" + e.name, dir, e.kind.Directory?, if e.kind.Regular? then e.kind.meta else None,
              e.name != "" && e.name[0] == '.')
    else
      RowAt(e.kind.sub, dir + "/" + e.name, a[1..], includeHidden)
  }

  /** Earlier in the walk: an entry comes before what is below it, and before its later siblings. */
  predicate Before(a: Address, b: Address)
    decreases |a|
  {
    b != [] && (a == [] || a[0] < b[0] || (a[0] == b[0] && Before(a[1..], b[1..])))
  }

  /** `as` are addresses in walking order that lead to `rows`. */
  ghost predicate Lead(t: Tree, dir: string, addresses: seq<Address>, includeHidden: bool, rows: seq<FileRow>) {
    && |addresses| == |rows|
    && (forall k :: 0 <= k < |rows| ==>
          Leads(t, addresses[k], includeHidden) && rows[k] == RowAt(t, dir, addresses[k], includeHidden))
    && (forall i, j :: 0 <= i < j < |addresses| ==> Before(addresses[i], addresses[j]))
  }

  /** All addresses that start at entry `i` or a later one are listed, and no others. */
  ghost predicate AllFrom(t: Tree, i: nat, addresses: seq<Address>, includeHidden: bool) {
    && (forall k :: 0 <= k < |addresses| ==> addresses[k] != [] && i <= addresses[k][0])
    && (forall a: Address :: Leads(t, a, includeHidden) && i <= a[0] ==> a in addresses)
  }

  function Below(i: nat, addresses: seq<Address>): (r: seq<Address>)
    ensures |r| == |addresses|
    ensures forall k :: 0 <= k < |r| ==> r[k] == [i] + addresses[k]
  {
    seq(|addresses|, k requires 0 <= k < |addresses| => [i] + addresses[k])
  }

  lemma BelowOne(i: nat, a: Address)
    ensures ([i] + a)[0] == i && ([i] + a)[1..] == a
  {
  }

  /** Rows of a subdirectory, seen from the directory that holds it. */
  lemma LeadBelow(t: Tree, i: nat, dir: string, addresses: seq<Address>, includeHidden: bool, rows: seq<FileRow>)
    requires Leads(t, [i], includeHidden) && t.entries[i].kind.Directory?
    requires Lead(t.entries[i].kind.sub, dir + "/" + t.entries[i].name, addresses, includeHidden, rows)
    ensures Lead(t, dir, Below(i, addresses), includeHidden, rows)
  {
    var below := Below(i, addresses);
    forall k | 0 <= k < |rows|
      ensures Leads(t, below[k], includeHidden) && rows[k] == RowAt(t, dir, below[k], includeHidden)
    {
      BelowOne(i, addresses[k]);
    }
    forall k, l | 0 <= k < l < |below| ensures Before(below[k], below[l]) {
      BelowOne(i, addresses[k]);
      BelowOne(i, addresses[l]);
    }
  }

  lemma LeadJoin(t: Tree, dir: string, a: seq<Address>, b: seq<Address>, includeHidden: bool, rows: seq<FileRow>,
                 more: seq<FileRow>)
    requires Lead(t, dir, a, includeHidden, rows) && Lead(t, dir, b, includeHidden, more)
    requires forall k, l :: 0 <= k < |a| && 0 <= l < |b| ==> Before(a[k], b[l])
    ensures Lead(t, dir, a + b, includeHidden, rows + more)
  {
  }

  /** The row of the entry itself. */
  lemma LeadOne(t: Tree, i: nat, dir: string, includeHidden: bool)
    requires t.Listing? && i < |t.entries|
    ensures RowOf(t.entries[i], dir, includeHidden).Some? <==> Leads(t, [i], includeHidden)
    ensures Leads(t, [i], includeHidden) ==>
      Lead(t, dir, [[i]], includeHidden, [RowOf(t.entries[i], dir, includeHidden).value])
  {
  }

  /** An address that starts at entry `i` is the entry's own or goes on in the entry's directory. */
  lemma StartsAt(t: Tree, a: Address, includeHidden: bool)
    requires Leads(t, a, includeHidden)
    ensures Leads(t, [a[0]], includeHidden)
    ensures a == [a[0]] || (t.entries[a[0]].kind.Directory? && Leads(t.entries[a[0]].kind.sub, a[1..], includeHidden))
    ensures a == [a[0]] + a[1..]
  {
  }

  lemma AllOfEntry(t: Tree, i: nat, includeHidden: bool, sub: seq<Address>, rest: seq<Address>)
    requires t.Listing? && i < |t.entries| && AllFrom(t, i + 1, rest, includeHidden)
    requires Leads(t, [i], includeHidden)
    requires if t.entries[i].kind.Directory? then AllFrom(t.entries[i].kind.sub, 0, sub, includeHidden) else sub == []
    ensures AllFrom(t, i, [[i]] + Below(i, sub) + rest, includeHidden)
  {
    var all := [[i]] + Below(i, sub) + rest;
    forall a: Address | Leads(t, a, includeHidden) && i <= a[0] ensures a in all {
      StartsAt(t, a, includeHidden);
      if a == [i] {
        assert all[0] == a;
      } else if a[0] == i {
        assert a[1..] in sub;
        var k :| 0 <= k < |sub| && sub[k] == a[1..];
        assert all[k + 1] == Below(i, sub)[k] == a;
      }
    }
  }

  lemma {:induction false} RowsFromExact(t: Tree, i: nat, dir: string, includeHidden: bool)
    returns (addresses: seq<Address>)
    requires t.Listing? && i <= |t.entries|
    ensures Lead(t, dir, addresses, includeHidden, RowsFrom(t, i, dir, includeHidden))
    ensures AllFrom(t, i, addresses, includeHidden)
    decreases t, |t.entries| - i
  {
    if i == |t.entries| {
      addresses := [];
    } else {
      var rest := RowsFromExact(t, i + 1, dir, includeHidden);
      LeadOne(t, i, dir, includeHidden);
      var e := t.entries[i];
      if !Leads(t, [i], includeHidden) {
        addresses := SkipEntry(t, i, dir, includeHidden, rest);
      } else {
        var sub: seq<Address> := [];
        if e.kind.Directory? {
          sub := RowsExact(e.kind.sub, dir + "/" + e.name, includeHidden);
          LeadBelow(t, i, dir, sub, includeHidden, Rows(e.kind.sub, dir + "/" + e.name, includeHidden));
        }
        addresses := [[i]] + Below(i, sub) + rest;
        AllOfEntry(t, i, includeHidden, sub, rest);
        OneEntry(t, i, dir, includeHidden, sub, rest);
      }
    }
  }

  lemma SkipEntry(t: Tree, i: nat, dir: string, includeHidden: bool, rest: seq<Address>) returns (all: seq<Address>)
    requires t.Listing? && i < |t.entries| && !Leads(t, [i], includeHidden)
    requires Lead(t, dir, rest, includeHidden, RowsFrom(t, i + 1, dir, includeHidden))
    requires AllFrom(t, i + 1, rest, includeHidden)
    ensures all == rest && AllFrom(t, i, all, includeHidden)
    ensures Lead(t, dir, all, includeHidden, RowsFrom(t, i, dir, includeHidden))
  {
    all := rest;
    LeadOne(t, i, dir, includeHidden);
    assert [] + RowsFrom(t, i + 1, dir, includeHidden) == RowsFrom(t, i + 1, dir, includeHidden);
    forall a: Address | Leads(t, a, includeHidden) && i <= a[0] ensures a in all {
      StartsAt(t, a, includeHidden);
    }
  }

  lemma OneEntry(t: Tree, i: nat, dir: string, includeHidden: bool, sub: seq<Address>, rest: seq<Address>)
    requires t.Listing? && i < |t.entries| && Leads(t, [i], includeHidden)
    requires Lead(t, dir, rest, includeHidden, RowsFrom(t, i + 1, dir, includeHidden))
    requires forall k :: 0 <= k < |rest| ==> rest[k] != [] && i < rest[k][0]
    requires var e := t.entries[i];
      if e.kind.Directory?
      then Lead(t, dir, Below(i, sub), includeHidden, Rows(e.kind.sub, dir + "/" + e.name, includeHidden))
      else sub == []
    requires forall k :: 0 <= k < |sub| ==> sub[k] != []
    ensures Lead(t, dir, [[i]] + Below(i, sub) + rest, includeHidden, RowsFrom(t, i, dir, includeHidden))
  {
    var e, row := t.entries[i], RowOf(t.entries[i], dir, includeHidden).value;
    LeadOne(t, i, dir, includeHidden);
    var inside := if e.kind.Directory? then Rows(e.kind.sub, dir + "/" + e.name, includeHidden) else [];
    assert Lead(t, dir, Below(i, sub), includeHidden, inside);
    forall k, l | 0 <= k < 1 && 0 <= l < |Below(i, sub)| ensures Before([[i]][k], Below(i, sub)[l]) {
      BelowOne(i, sub[l]);
      assert Before([i][1..], sub[l]);
    }
    LeadJoin(t, dir, [[i]], Below(i, sub), includeHidden, [row], inside);
    var here := [[i]] + Below(i, sub);
    forall k, l | 0 <= k < |here| && 0 <= l < |rest| ensures Before(here[k], rest[l]) {
      if k > 0 { BelowOne(i, sub[k - 1]); }
    }
    LeadJoin(t, dir, here, rest, includeHidden, [row] + inside, RowsFrom(t, i + 1, dir, includeHidden));
    assert [row] + [] == [row];
  }

  /** The rows of a tree are the rows of the addresses that lead to one: each once, in walking order. */
  lemma {:induction false} RowsExact(t: Tree, dir: string, includeHidden: bool) returns (addresses: seq<Address>)
    ensures |addresses| == |Rows(t, dir, includeHidden)|
    ensures forall k :: 0 <= k < |addresses| ==>
      Leads(t, addresses[k], includeHidden)
      && Rows(t, dir, includeHidden)[k] == RowAt(t, dir, addresses[k], includeHidden)
    ensures forall a: Address :: Leads(t, a, includeHidden) ==> a in addresses
    ensures forall i, j :: 0 <= i < j < |addresses| ==> Before(addresses[i], addresses[j])
    ensures AllFrom(t, 0, addresses, includeHidden)
    ensures Lead(t, dir, addresses, includeHidden, Rows(t, dir, includeHidden))
    decreases t, if t.Listing? then |t.entries| + 1 else 0
  {
    if t.NoAccess? {
      addresses := [];
    } else {
      addresses := RowsFromExact(t, 0, dir, includeHidden);
    }
  }

  /** `a` leads to `row`. */
  predicate LeadsTo(t: Tree, dir: string, a: Address, includeHidden: bool, row: FileRow) {
    Leads(t, a, includeHidden) && row == RowAt(t, dir, a, includeHidden)
  }

  lemma AddressOf(t: Tree, dir: string, includeHidden: bool, k: nat) returns (a: Address)
    requires k < |Rows(t, dir, includeHidden)|
    ensures LeadsTo(t, dir, a, includeHidden, Rows(t, dir, includeHidden)[k])
  {
    var addresses := RowsExact(t, dir, includeHidden);
    a := addresses[k];
  }

  lemma IndexOf(t: Tree, dir: string, includeHidden: bool, a: Address) returns (k: nat)
    requires Leads(t, a, includeHidden)
    ensures k < |Rows(t, dir, includeHidden)|
    ensures LeadsTo(t, dir, a, includeHidden, Rows(t, dir, includeHidden)[k])
  {
    var addresses := RowsExact(t, dir, includeHidden);
    k :| 0 <= k < |addresses| && addresses[k] == a;
  }

  /** A row is in the list exactly when some address leads to it. */
  lemma RowIff(t: Tree, dir: string, includeHidden: bool, row: FileRow)
    ensures row in Rows(t, dir, includeHidden) <==> exists a: Address :: LeadsTo(t, dir, a, includeHidden, row)
  {
    var rows := Rows(t, dir, includeHidden);
    if row in rows {
      var k :| 0 <= k < |rows| && rows[k] == row;
      var a := AddressOf(t, dir, includeHidden, k);
    }
    forall a: Address | LeadsTo(t, dir, a, includeHidden, row) ensures row in rows {
      var k := IndexOf(t, dir, includeHidden, a);
      assert rows[k] in rows;
    }
  }

  // ----- what a scan stores and counts

  /** The listed places that hold a file. */
  function FilesAmong(rows: seq<FileRow>): set<nat> {
    set k | 0 <= k < |rows| && !rows[k].isDir
  }

  lemma {:induction false} CountIs(rows: seq<FileRow>)
    ensures CountFiles(rows) == |FilesAmong(rows)|
  {
    if rows == [] {
      assert FilesAmong(rows) == {};
    } else {
      var front, last := rows[..|rows| - 1], rows[|rows| - 1];
      assert rows == front + [last];
      CountIs(front);
      CountAppend(front, [last]);
      assert [last][1..] == [] && CountFiles([last]) == if last.isDir then 0 else 1;
      assert FilesAmong(rows) == FilesAmong(front) + (if last.isDir then {} else {|front|});
    }
  }

  /** A scan none of whose flushes fails, from an empty table: a path is in the table exactly when an
      address leads to a row with it, with such a row, and the count is the number of addresses of files. */
  lemma ScanIndexes(t: Tree, dir: string, includeHidden: bool, env: Env)
    returns (addresses: seq<Address>, files: set<nat>)
    requires Indexer.Quiet(env, 0, ScanFlushes(t, dir, includeHidden, env))
    ensures forall a: Address :: Leads(t, a, includeHidden) <==> a in addresses
    ensures forall i, j :: 0 <= i < j < |addresses| ==> addresses[i] != addresses[j]
    ensures forall k: nat :: k in files <==>
      k < |addresses| && Leads(t, addresses[k], includeHidden) && !RowAt(t, dir, addresses[k], includeHidden).isDir
    ensures var r := ScanDir(t, dir, includeHidden, map[], env);
      && r.outcome == Some(|files|)
      && (forall path :: path in r.table <==>
            exists k :: 0 <= k < |addresses| && LeadsToPath(t, dir, addresses[k], includeHidden, path))
      && (forall path :: path in r.table ==> RowFor(t, dir, addresses, includeHidden, path, r.table[path]))
  {
    addresses := RowsExact(t, dir, includeHidden);
    var rows := Rows(t, dir, includeHidden);
    files := FilesAmong(rows);
    CountIs(rows);
    ScanComplete(t, dir, includeHidden, map[], env);
    InOrderDistinct(addresses);
    forall path
      ensures path in Upsert(map[], rows) <==>
        exists k :: 0 <= k < |addresses| && LeadsToPath(t, dir, addresses[k], includeHidden, path)
      ensures path in Upsert(map[], rows) ==>
        RowFor(t, dir, addresses, includeHidden, path, Upsert(map[], rows)[path])
    {
      StoredPath(t, dir, includeHidden, addresses, rows, path);
    }
    forall a: Address ensures Leads(t, a, includeHidden) <==> a in addresses {
    }
  }

  lemma InOrderDistinct(addresses: seq<Address>)
    requires forall i, j :: 0 <= i < j < |addresses| ==> Before(addresses[i], addresses[j])
    ensures forall i, j :: 0 <= i < j < |addresses| ==> addresses[i] != addresses[j]
  {
    forall i, j | 0 <= i < j < |addresses| ensures addresses[i] != addresses[j] {
      NotBeforeItself(addresses[i]);
    }
  }

  predicate LeadsToPath(t: Tree, dir: string, a: Address, includeHidden: bool, path: string) {
    Leads(t, a, includeHidden) && RowAt(t, dir, a, includeHidden).path == path
  }

  ghost predicate RowFor(t: Tree, dir: string, addresses: seq<Address>, includeHidden: bool, path: string,
                         row: FileRow) {
    row.path == path && exists k :: 0 <= k < |addresses| && LeadsTo(t, dir, addresses[k], includeHidden, row)
  }

  lemma {:induction false} NotBeforeItself(a: Address)
    ensures !Before(a, a)
    decreases |a|
  {
    if a != [] {
      NotBeforeItself(a[1..]);
    }
  }

  lemma StoredPath(t: Tree, dir: string, includeHidden: bool, addresses: seq<Address>, rows: seq<FileRow>, path: string)
    requires Lead(t, dir, addresses, includeHidden, rows)
    ensures path in Upsert(map[], rows) <==>
      exists k :: 0 <= k < |addresses| && LeadsToPath(t, dir, addresses[k], includeHidden, path)
    ensures path in Upsert(map[], rows) ==>
      RowFor(t, dir, addresses, includeHidden, path, Upsert(map[], rows)[path])
  {
    UpsertAt(map[], rows, path);
    if i :| 0 <= i < |rows| && rows[i].path == path {
      assert LeadsToPath(t, dir, addresses[i], includeHidden, path);
      var j :| 0 <= j < |rows| && rows[j].path == path && Upsert(map[], rows)[path] == rows[j];
      assert LeadsTo(t, dir, addresses[j], includeHidden, rows[j]);
    }
  }

  // ----- how many flushes

  /** Every flush so far wrote one full batch, and less than a batch is pending. */
  predicate FullBatches(s: Scan, env: Env) {
    |s.committed| == s.flushes * env.batch && |s.pending| < env.batch
  }

  lemma QueueFull(s: Scan, row: FileRow, env: Env)
    requires FullBatches(s, env) && !env.fails(s.flushes)
    ensures var (q, ok) := QueueRow(s, row, env); ok && FullBatches(q, env)
  {
    assert (s.flushes + 1) * env.batch == s.flushes * env.batch + env.batch;
  }

  lemma {:induction false} WalkFull(t: Tree, dir: string, includeHidden: bool, s: Scan, env: Env)
    requires FullBatches(s, env) && forall n :: !env.fails(n)
    ensures FullBatches(Walk(t, dir, includeHidden, s, env).scan, env)
    decreases t, if t.Listing? then |t.entries| + 1 else 0
  {
    if t.Listing? { WalkFromFull(t, 0, dir, includeHidden, s, env); }
  }

  lemma {:induction false} WalkFromFull(t: Tree, i: nat, dir: string, includeHidden: bool, s: Scan, env: Env)
    requires t.Listing? && i <= |t.entries| && FullBatches(s, env) && forall n :: !env.fails(n)
    ensures FullBatches(WalkFrom(t, i, dir, includeHidden, s, env).scan, env)
    decreases t, |t.entries| - i
  {
    if i < |t.entries| {
      var e := t.entries[i];
      var row := RowOf(e, dir, includeHidden);
      if row.None? {
        WalkFromFull(t, i + 1, dir, includeHidden, s, env);
      } else {
        var q := QueueRow(s, row.value, env).0;
        QueueFull(s, row.value, env);
        if row.value.isDir {
          var sub := Walk(e.kind.sub, row.value.path, includeHidden, q, env);
          WalkFull(e.kind.sub, row.value.path, includeHidden, q, env);
          WalkFromFull(t, i + 1, dir, includeHidden, sub.scan, env);
        } else {
          WalkFromFull(t, i + 1, dir, includeHidden, q, env);
        }
      }
    }
  }

  /** Rows are written a batch at a time: a scan of n rows needs n divided by the batch size, rounded up. */
  lemma FlushesNeeded(t: Tree, dir: string, includeHidden: bool, env: Env)
    requires env.batch > 0 && forall n :: !env.fails(n)
    ensures var n, flushes := |Rows(t, dir, includeHidden)|, ScanFlushes(t, dir, includeHidden, env);
      flushes * env.batch - env.batch < n <= flushes * env.batch
  {
    var s := Scan([], [], 0);
    var w := Walk(t, dir, includeHidden, s, env);
    WalkFull(t, dir, includeHidden, s, env);
    WalkComplete(t, dir, includeHidden, s, env);
    WalkConserves(t, dir, includeHidden, s, env);
    assert |w.scan.committed + w.scan.pending| == |Rows(t, dir, includeHidden)|;
    assert (w.scan.flushes + 1) * env.batch == w.scan.flushes * env.batch + env.batch;
  }
}

/** The batched directory walk of indexer.rs and the upsert it writes through. */
module Indexer {
  import opened Sequences
  import opened Wrappers

  const MAX_FILE_SIZE_BYTES := 10 * 1024 * 1024

  datatype Meta = Meta(size: nat, lastModified: Option<int>, extension: Option<string>)

  /** What `read_dir` and `next_entry` report. A listing ends; unreadable entries are among its items. */
  datatype Tree = NoAccess | Listing(entries: seq<Entry>)

  datatype Entry = ReadError | Found(name: string, kind: Kind)

  datatype Kind = TypeError | Symlink | Directory(sub: Tree) | Regular(meta: Option<Meta>) | OtherKind

  datatype FileRow = FileRow(name: string, path: string, parentPath: string, isDir: bool, meta: Option<Meta>,
                             isHidden: bool)

  /** The batch size, and which of the attempted flushes fail. A flush is one transaction. */
  datatype Env = Env(batch: nat, fails: nat -> bool)

  function Hidden(name: string): bool { name != [] && name[0] == '.' }

  function PathOf(dir: string, name: string): string { dir + "/" + name }

  /** The row an entry gives, if it qualifies. */
  function RowOf(e: Entry, dir: string, includeHidden: bool): Option<FileRow> {
    if e.ReadError? || (Hidden(e.name) && !includeHidden) then None
    else
      match e.kind
      case Directory(_) => Some(FileRow(e.name, PathOf(dir, e.name), dir, true, None, Hidden(e.name)))
      case Regular(Some(m)) =>
        if m.size > MAX_FILE_SIZE_BYTES then None
        else Some(FileRow(e.name, PathOf(dir, e.name), dir, false, Some(m), Hidden(e.name)))
      case _ => None
  }

  // ----- the rows of a tree, in walking order

  function Rows(t: Tree, dir: string, includeHidden: bool): seq<FileRow>
    decreases t, if t.Listing? then |t.entries| + 1 else 0
  {
    if t.NoAccess? then [] else RowsFrom(t, 0, dir, includeHidden)
  }

  function RowsFrom(t: Tree, i: nat, dir: string, includeHidden: bool): seq<FileRow>
    requires t.Listing? && i <= |t.entries|
    decreases t, |t.entries| - i
  {
    if i == |t.entries| then []
    else
      var e := t.entries[i];
      var row := RowOf(e, dir, includeHidden);
      (if row.None? then []
       else if row.value.isDir then [row.value] + Rows(e.kind.sub, row.value.path, includeHidden)
       else [row.value]) + RowsFrom(t, i + 1, dir, includeHidden)
  }

  function CountFiles(rows: seq<FileRow>): nat {
    if rows == [] then 0 else (if rows[0].isDir then 0 else 1) + CountFiles(rows[1..])
  }

  lemma {:induction false} CountAppend(a: seq<FileRow>, b: seq<FileRow>)
    ensures CountFiles(a + b) == CountFiles(a) + CountFiles(b)
  {
    if a == [] {
      assert a + b == b;
    } else {
      assert (a + b)[0] == a[0] && (a + b)[1..] == a[1..] + b;
      CountAppend(a[1..], b);
    }
  }

  // ----- the table

  /** The upsert by path; a row already stored unchanged is left alone, which comes to the same. */
  function Upsert(table: map<string, FileRow>, rows: seq<FileRow>): map<string, FileRow>
    decreases |rows|
  {
    if rows == [] then table else Upsert(table[rows[0].path := rows[0]], rows[1..])
  }

  lemma {:induction false} UpsertAppend(table: map<string, FileRow>, a: seq<FileRow>, b: seq<FileRow>)
    ensures Upsert(table, a + b) == Upsert(Upsert(table, a), b)
    decreases |a|
  {
    if a == [] {
      assert a + b == b;
    } else {
      assert (a + b)[0] == a[0] && (a + b)[1..] == a[1..] + b;
      UpsertAppend(table[a[0].path := a[0]], a[1..], b);
    }
  }

  /** The last row written for a path is what the table holds. */
  lemma {:induction false} UpsertAt(table: map<string, FileRow>, rows: seq<FileRow>, path: string)
    ensures var t := Upsert(table, rows);
      if exists i :: 0 <= i < |rows| && rows[i].path == path then
        path in t && (exists i :: 0 <= i < |rows| && rows[i].path == path && t[path] == rows[i]
                        && forall j :: i < j < |rows| ==> rows[j].path != path)
      else (path in t <==> path in table) && (path in table ==> t[path] == table[path])
    decreases |rows|
  {
    if rows != [] {
      var rest := rows[1..];
      UpsertAt(table[rows[0].path := rows[0]], rest, path);
      if exists i :: 0 <= i < |rest| && rest[i].path == path {
        var i :| 0 <= i < |rest| && rest[i].path == path && Upsert(table, rows)[path] == rest[i]
          && forall j :: i < j < |rest| ==> rest[j].path != path;
        assert rows[i + 1] == rest[i];
        assert forall j :: i + 1 < j < |rows| ==> rows[j] == rest[j - 1];
      } else {
        assert forall j :: 1 <= j < |rows| ==> rows[j] == rest[j - 1];
      }
    }
  }

  /** Writing the same rows again changes nothing. */
  lemma RescanChangesNothing(table: map<string, FileRow>, rows: seq<FileRow>)
    ensures Upsert(Upsert(table, rows), rows) == Upsert(table, rows)
  {
    var t := Upsert(table, rows);
    var u := Upsert(t, rows);
    forall path ensures (path in u <==> path in t) && (path in t ==> u[path] == t[path]) {
      UpsertAt(table, rows, path);
      UpsertAt(t, rows, path);
    }
    assert u.Keys == t.Keys;
  }

  // ----- the walk as a function

  /** Rows written, rows still held, and how many flushes were attempted. */
  datatype Scan = Scan(committed: seq<FileRow>, pending: seq<FileRow>, flushes: nat)

  /** What a walk leaves: the scan, the rows it queued, and its count unless a flush failed. */
  datatype Walked = Walked(scan: Scan, queued: seq<FileRow>, outcome: Option<nat>)

  /** `queue_row`: on a failed flush the rows stay pending. */
  function QueueRow(s: Scan, row: FileRow, env: Env): (Scan, bool) {
    var pending := s.pending + [row];
    if |pending| < env.batch then (s.(pending := pending), true)
    else if env.fails(s.flushes) then (Scan(s.committed, pending, s.flushes + 1), false)
    else (Scan(s.committed + pending, [], s.flushes + 1), true)
  }

  function Walk(t: Tree, dir: string, includeHidden: bool, s: Scan, env: Env): Walked
    decreases t, if t.Listing? then |t.entries| + 1 else 0
  {
    if t.NoAccess? then Walked(s, [], Some(0)) else WalkFrom(t, 0, dir, includeHidden, s, env)
  }

  /** The loop from the `i`th entry on. A failed subdirectory counts as zero files and the loop goes on. */
  function WalkFrom(t: Tree, i: nat, dir: string, includeHidden: bool, s: Scan, env: Env): Walked
    requires t.Listing? && i <= |t.entries|
    decreases t, |t.entries| - i
  {
    if i == |t.entries| then Walked(s, [], Some(0))
    else
      var e := t.entries[i];
      var row := RowOf(e, dir, includeHidden);
      if row.None? then WalkFrom(t, i + 1, dir, includeHidden, s, env)
      else
        var (q, ok) := QueueRow(s, row.value, env);
        if !ok then Walked(q, [row.value], None)
        else if row.value.isDir then
          var sub := Walk(e.kind.sub, row.value.path, includeHidden, q, env);
          var rest := WalkFrom(t, i + 1, dir, includeHidden, sub.scan, env);
          Walked(rest.scan, [row.value] + sub.queued + rest.queued,
                 if rest.outcome.None? then None
                 else Some(rest.outcome.value + if sub.outcome.Some? then sub.outcome.value else 0))
        else
          var rest := WalkFrom(t, i + 1, dir, includeHidden, q, env);
          Walked(rest.scan, [row.value] + rest.queued,
                 if rest.outcome.None? then None else Some(rest.outcome.value + 1))
  }

  /** One subdirectory of the loop, when its own row was queued. */
  lemma WalkDirStep(t: Tree, i: nat, dir: string, includeHidden: bool, s: Scan, env: Env)
    requires t.Listing? && i < |t.entries|
    requires RowOf(t.entries[i], dir, includeHidden).Some? && RowOf(t.entries[i], dir, includeHidden).value.isDir
    requires QueueRow(s, RowOf(t.entries[i], dir, includeHidden).value, env).1
    ensures var row := RowOf(t.entries[i], dir, includeHidden).value;
      var q := QueueRow(s, row, env).0;
      var sub := Walk(t.entries[i].kind.sub, row.path, includeHidden, q, env);
      var rest := WalkFrom(t, i + 1, dir, includeHidden, sub.scan, env);
      && WalkFrom(t, i, dir, includeHidden, s, env)
          == Walked(rest.scan, [row] + sub.queued + rest.queued,
                    if rest.outcome.None? then None
                    else Some(rest.outcome.value + if sub.outcome.Some? then sub.outcome.value else 0))
      && RowsFrom(t, i, dir, includeHidden)
          == [row] + Rows(t.entries[i].kind.sub, row.path, includeHidden) + RowsFrom(t, i + 1, dir, includeHidden)
  {
  }

  /** One file of the loop, when its row was queued. */
  lemma WalkFileStep(t: Tree, i: nat, dir: string, includeHidden: bool, s: Scan, env: Env)
    requires t.Listing? && i < |t.entries|
    requires RowOf(t.entries[i], dir, includeHidden).Some? && !RowOf(t.entries[i], dir, includeHidden).value.isDir
    requires QueueRow(s, RowOf(t.entries[i], dir, includeHidden).value, env).1
    ensures var row := RowOf(t.entries[i], dir, includeHidden).value;
      var rest := WalkFrom(t, i + 1, dir, includeHidden, QueueRow(s, row, env).0, env);
      && WalkFrom(t, i, dir, includeHidden, s, env)
          == Walked(rest.scan, [row] + rest.queued, if rest.outcome.None? then None else Some(rest.outcome.value + 1))
      && RowsFrom(t, i, dir, includeHidden) == [row] + RowsFrom(t, i + 1, dir, includeHidden)
  {
  }

  // ----- no row is lost or reordered, whatever flushes fail

  /** Committed rows followed by pending rows are what was there before followed by what was queued. */
  ghost predicate Conserves(s: Scan, w: Walked) {
    w.scan.committed + w.scan.pending == s.committed + s.pending + w.queued
  }

  lemma QueueConserves(s: Scan, row: FileRow, env: Env)
    ensures QueueRow(s, row, env).0.committed + QueueRow(s, row, env).0.pending == s.committed + s.pending + [row]
  {
  }

  lemma {:induction false} WalkConserves(t: Tree, dir: string, includeHidden: bool, s: Scan, env: Env)
    ensures Conserves(s, Walk(t, dir, includeHidden, s, env))
    decreases t, if t.Listing? then |t.entries| + 1 else 0
  {
    if t.Listing? { WalkFromConserves(t, 0, dir, includeHidden, s, env); }
  }

  lemma {:induction false} WalkFromConserves(t: Tree, i: nat, dir: string, includeHidden: bool, s: Scan, env: Env)
    requires t.Listing? && i <= |t.entries|
    ensures Conserves(s, WalkFrom(t, i, dir, includeHidden, s, env))
    decreases t, |t.entries| - i
  {
    if i < |t.entries| {
      var e := t.entries[i];
      var row := RowOf(e, dir, includeHidden);
      if row.None? {
        WalkFromConserves(t, i + 1, dir, includeHidden, s, env);
      } else {
        QueueConserves(s, row.value, env);
        var (q, ok) := QueueRow(s, row.value, env);
        if ok && row.value.isDir {
          WalkConserves(e.kind.sub, row.value.path, includeHidden, q, env);
          var sub := Walk(e.kind.sub, row.value.path, includeHidden, q, env);
          WalkFromConserves(t, i + 1, dir, includeHidden, sub.scan, env);
        } else if ok {
          WalkFromConserves(t, i + 1, dir, includeHidden, q, env);
        }
      }
    }
  }

  /** `a` is `b` with some rows left out. */
  ghost predicate Subsequence(a: seq<FileRow>, b: seq<FileRow>)
    decreases |b|
  {
    a == [] || (b != [] && ((a[0] == b[0] && Subsequence(a[1..], b[1..])) || Subsequence(a, b[1..])))
  }

  lemma {:induction false} SubsequenceAppend(a: seq<FileRow>, b: seq<FileRow>, c: seq<FileRow>, d: seq<FileRow>)
    requires Subsequence(a, b) && Subsequence(c, d)
    ensures Subsequence(a + c, b + d)
    decreases |b|
  {
    if b == [] {
      assert a + c == c && b + d == d;
    } else {
      assert (b + d)[0] == b[0] && (b + d)[1..] == b[1..] + d;
      if a == [] {
        SubsequenceAppend([], b[1..], c, d);
        assert [] + c == c && a + c == c;
      } else if a[0] == b[0] && Subsequence(a[1..], b[1..]) {
        SubsequenceAppend(a[1..], b[1..], c, d);
        assert (a + c)[0] == a[0] && (a + c)[1..] == a[1..] + c;
      } else {
        SubsequenceAppend(a, b[1..], c, d);
      }
    }
  }

  lemma SubsequenceCons(row: FileRow, a: seq<FileRow>, b: seq<FileRow>)
    requires Subsequence(a, b)
    ensures Subsequence([row] + a, [row] + b)
  {
    assert ([row] + a)[1..] == a && ([row] + b)[1..] == b;
  }

  /** The rows queued are rows of the tree, in walking order, some possibly left out. The count never
      exceeds the files queued. */
  lemma {:induction false} WalkQueuesInOrder(t: Tree, dir: string, includeHidden: bool, s: Scan, env: Env)
    ensures var w := Walk(t, dir, includeHidden, s, env);
      Subsequence(w.queued, Rows(t, dir, includeHidden))
      && (w.outcome.Some? ==> w.outcome.value <= CountFiles(w.queued))
    decreases t, if t.Listing? then |t.entries| + 1 else 0
  {
    if t.Listing? { WalkFromQueuesInOrder(t, 0, dir, includeHidden, s, env); }
  }

  lemma {:induction false} WalkFromQueuesInOrder(t: Tree, i: nat, dir: string, includeHidden: bool, s: Scan, env: Env)
    requires t.Listing? && i <= |t.entries|
    ensures var w := WalkFrom(t, i, dir, includeHidden, s, env);
      Subsequence(w.queued, RowsFrom(t, i, dir, includeHidden))
      && (w.outcome.Some? ==> w.outcome.value <= CountFiles(w.queued))
    decreases t, |t.entries| - i
  {
    if i < |t.entries| {
      var e := t.entries[i];
      var row := RowOf(e, dir, includeHidden);
      if row.None? {
        WalkFromQueuesInOrder(t, i + 1, dir, includeHidden, s, env);
        assert [] + RowsFrom(t, i + 1, dir, includeHidden) == RowsFrom(t, i + 1, dir, includeHidden);
      } else {
        var (q, ok) := QueueRow(s, row.value, env);
        if ok && row.value.isDir {
          var sub := Walk(e.kind.sub, row.value.path, includeHidden, q, env);
          var rest := WalkFrom(t, i + 1, dir, includeHidden, sub.scan, env);
          WalkQueuesInOrder(e.kind.sub, row.value.path, includeHidden, q, env);
          WalkFromQueuesInOrder(t, i + 1, dir, includeHidden, sub.scan, env);
          WalkDirStep(t, i, dir, includeHidden, s, env);
          DirInOrder(row.value, sub.queued, Rows(e.kind.sub, row.value.path, includeHidden),
                     rest.queued, RowsFrom(t, i + 1, dir, includeHidden));
          DirCount(row.value, sub.queued, rest.queued);
        } else if ok {
          var rest := WalkFrom(t, i + 1, dir, includeHidden, q, env);
          WalkFromQueuesInOrder(t, i + 1, dir, includeHidden, q, env);
          SubsequenceCons(row.value, rest.queued, RowsFrom(t, i + 1, dir, includeHidden));
          CountAppend([row.value], rest.queued);
        } else {
          assert RowsFrom(t, i, dir, includeHidden)[0] == row.value;
          FirstInOrder(row.value, RowsFrom(t, i, dir, includeHidden));
        }
      }
    }
  }

  lemma FirstInOrder(row: FileRow, rows: seq<FileRow>)
    requires rows != [] && rows[0] == row
    ensures Subsequence([row], rows)
  {
    assert [row][1..] == [];
    assert Subsequence([], rows[1..]);
  }

  lemma DirInOrder(row: FileRow, a: seq<FileRow>, b: seq<FileRow>, c: seq<FileRow>, d: seq<FileRow>)
    requires Subsequence(a, b) && Subsequence(c, d)
    ensures Subsequence([row] + a + c, [row] + b + d)
  {
    SubsequenceAppend(a, b, c, d);
    SubsequenceCons(row, a + c, b + d);
    assert [row] + a + c == [row] + (a + c) && [row] + b + d == [row] + (b + d);
  }

  lemma FileCount(row: FileRow, rest: seq<FileRow>)
    requires !row.isDir
    ensures CountFiles([row] + rest) == 1 + CountFiles(rest)
  {
    CountAppend([row], rest);
  }

  lemma DirCount(row: FileRow, a: seq<FileRow>, b: seq<FileRow>)
    requires row.isDir
    ensures CountFiles([row] + a + b) == CountFiles(a) + CountFiles(b)
  {
    CountAppend([row] + a, b);
    CountAppend([row], a);
  }

  // ----- the count, exactly

  /** File rows queued inside subdirectories whose walk failed: they count as zero there. */
  function Dropped(t: Tree, dir: string, includeHidden: bool, s: Scan, env: Env): nat
    decreases t, if t.Listing? then |t.entries| + 1 else 0
  {
    if t.NoAccess? then 0 else DroppedFrom(t, 0, dir, includeHidden, s, env)
  }

  function DroppedFrom(t: Tree, i: nat, dir: string, includeHidden: bool, s: Scan, env: Env): nat
    requires t.Listing? && i <= |t.entries|
    decreases t, |t.entries| - i
  {
    if i == |t.entries| then 0
    else
      var e := t.entries[i];
      var row := RowOf(e, dir, includeHidden);
      if row.None? then DroppedFrom(t, i + 1, dir, includeHidden, s, env)
      else
        var (q, ok) := QueueRow(s, row.value, env);
        if !ok then 0
        else if row.value.isDir then
          var sub := Walk(e.kind.sub, row.value.path, includeHidden, q, env);
          (if sub.outcome.Some? then Dropped(e.kind.sub, row.value.path, includeHidden, q, env)
           else CountFiles(sub.queued))
          + DroppedFrom(t, i + 1, dir, includeHidden, sub.scan, env)
        else DroppedFrom(t, i + 1, dir, includeHidden, q, env)
  }

  /** A walk that succeeds counts all files it queued except those. */
  lemma {:induction false} WalkCount(t: Tree, dir: string, includeHidden: bool, s: Scan, env: Env)
    ensures var w := Walk(t, dir, includeHidden, s, env);
      w.outcome.Some? ==> CountFiles(w.queued) == w.outcome.value + Dropped(t, dir, includeHidden, s, env)
    decreases t, if t.Listing? then |t.entries| + 1 else 0
  {
    if t.Listing? { WalkFromCount(t, 0, dir, includeHidden, s, env); }
  }

  lemma {:induction false} WalkFromCount(t: Tree, i: nat, dir: string, includeHidden: bool, s: Scan, env: Env)
    requires t.Listing? && i <= |t.entries|
    ensures var w := WalkFrom(t, i, dir, includeHidden, s, env);
      w.outcome.Some? ==> CountFiles(w.queued) == w.outcome.value + DroppedFrom(t, i, dir, includeHidden, s, env)
    decreases t, |t.entries| - i
  {
    if i < |t.entries| {
      var e := t.entries[i];
      var row := RowOf(e, dir, includeHidden);
      if row.None? {
        WalkFromCount(t, i + 1, dir, includeHidden, s, env);
      } else {
        var (q, ok) := QueueRow(s, row.value, env);
        if ok && row.value.isDir {
          var sub := Walk(e.kind.sub, row.value.path, includeHidden, q, env);
          WalkCount(e.kind.sub, row.value.path, includeHidden, q, env);
          WalkFromCount(t, i + 1, dir, includeHidden, sub.scan, env);
          DirCount(row.value, sub.queued, WalkFrom(t, i + 1, dir, includeHidden, sub.scan, env).queued);
        } else if ok {
          WalkFromCount(t, i + 1, dir, includeHidden, q, env);
          FileCount(row.value, WalkFrom(t, i + 1, dir, includeHidden, q, env).queued);
        }
      }
    }
  }

  // ----- the rows that are never queued, exactly

  /** A failed flush ends the walk of its directory: what would have come after in it. */
  function Missing(t: Tree, dir: string, includeHidden: bool, s: Scan, env: Env): seq<FileRow>
    decreases t, if t.Listing? then |t.entries| + 1 else 0
  {
    if t.NoAccess? then [] else MissingFrom(t, 0, dir, includeHidden, s, env)
  }

  function MissingFrom(t: Tree, i: nat, dir: string, includeHidden: bool, s: Scan, env: Env): seq<FileRow>
    requires t.Listing? && i <= |t.entries|
    decreases t, |t.entries| - i
  {
    if i == |t.entries| then []
    else
      var e := t.entries[i];
      var row := RowOf(e, dir, includeHidden);
      if row.None? then MissingFrom(t, i + 1, dir, includeHidden, s, env)
      else
        var (q, ok) := QueueRow(s, row.value, env);
        if !ok then RowsFrom(t, i, dir, includeHidden)[1..]
        else if row.value.isDir then
          var sub := Walk(e.kind.sub, row.value.path, includeHidden, q, env);
          Missing(e.kind.sub, row.value.path, includeHidden, q, env)
          + MissingFrom(t, i + 1, dir, includeHidden, sub.scan, env)
        else MissingFrom(t, i + 1, dir, includeHidden, q, env)
  }

  /** These and the rows queued are all the rows of the tree. */
  ghost predicate Splits(rows: seq<FileRow>, queued: seq<FileRow>, missing: seq<FileRow>) {
    multiset(rows) == multiset(queued) + multiset(missing)
  }

  lemma {:induction false} WalkSplits(t: Tree, dir: string, includeHidden: bool, s: Scan, env: Env)
    ensures Splits(Rows(t, dir, includeHidden), Walk(t, dir, includeHidden, s, env).queued,
                   Missing(t, dir, includeHidden, s, env))
    decreases t, if t.Listing? then |t.entries| + 1 else 0
  {
    if t.Listing? { WalkFromSplits(t, 0, dir, includeHidden, s, env); }
  }

  lemma {:induction false} WalkFromSplits(t: Tree, i: nat, dir: string, includeHidden: bool, s: Scan, env: Env)
    requires t.Listing? && i <= |t.entries|
    ensures Splits(RowsFrom(t, i, dir, includeHidden), WalkFrom(t, i, dir, includeHidden, s, env).queued,
                   MissingFrom(t, i, dir, includeHidden, s, env))
    decreases t, |t.entries| - i
  {
    if i < |t.entries| {
      var e := t.entries[i];
      var row := RowOf(e, dir, includeHidden);
      if row.None? {
        WalkFromSplits(t, i + 1, dir, includeHidden, s, env);
        assert [] + RowsFrom(t, i + 1, dir, includeHidden) == RowsFrom(t, i + 1, dir, includeHidden);
      } else {
        var (q, ok) := QueueRow(s, row.value, env);
        if ok && row.value.isDir {
          var path, sub := row.value.path, Walk(e.kind.sub, row.value.path, includeHidden, q, env);
          WalkSplits(e.kind.sub, path, includeHidden, q, env);
          WalkFromSplits(t, i + 1, dir, includeHidden, sub.scan, env);
          WalkDirStep(t, i, dir, includeHidden, s, env);
          DirSplits(row.value, Rows(e.kind.sub, path, includeHidden), sub.queued,
                    Missing(e.kind.sub, path, includeHidden, q, env), RowsFrom(t, i + 1, dir, includeHidden),
                    WalkFrom(t, i + 1, dir, includeHidden, sub.scan, env).queued,
                    MissingFrom(t, i + 1, dir, includeHidden, sub.scan, env));
        } else if ok {
          WalkFromSplits(t, i + 1, dir, includeHidden, q, env);
          WalkFileStep(t, i, dir, includeHidden, s, env);
          FileSplits(row.value, RowsFrom(t, i + 1, dir, includeHidden),
                     WalkFrom(t, i + 1, dir, includeHidden, q, env).queued,
                     MissingFrom(t, i + 1, dir, includeHidden, q, env));
        } else {
          FirstSplits(row.value, RowsFrom(t, i, dir, includeHidden));
        }
      }
    }
  }

  lemma DirSplits(row: FileRow, a: seq<FileRow>, b: seq<FileRow>, c: seq<FileRow>, d: seq<FileRow>, e: seq<FileRow>,
                  f: seq<FileRow>)
    requires Splits(a, b, c) && Splits(d, e, f)
    ensures Splits([row] + a + d, [row] + b + e, c + f)
  {
  }

  lemma FileSplits(row: FileRow, a: seq<FileRow>, b: seq<FileRow>, c: seq<FileRow>)
    requires Splits(a, b, c)
    ensures Splits([row] + a, [row] + b, c)
  {
  }

  lemma FirstSplits(row: FileRow, rows: seq<FileRow>)
    requires rows != [] && rows[0] == row
    ensures Splits(rows, [row], rows[1..])
  {
    assert rows == [row] + rows[1..];
  }

  lemma {:induction false} SubsequenceLength(a: seq<FileRow>, b: seq<FileRow>)
    requires Subsequence(a, b)
    ensures |a| <= |b| && (|a| == |b| ==> a == b)
    decreases |b|
  {
    if a != [] {
      if a[0] == b[0] && Subsequence(a[1..], b[1..]) {
        SubsequenceLength(a[1..], b[1..]);
        SameByParts(a, b);
      } else {
        SubsequenceLength(a, b[1..]);
      }
    }
  }

  // ----- when no attempted flush fails

  /** None of the flushes from `lo` up to `hi` fails. */
  predicate Quiet(env: Env, lo: nat, hi: nat) {
    forall n :: lo <= n < hi ==> !env.fails(n)
  }

  lemma {:induction false} WalkFlushes(t: Tree, dir: string, includeHidden: bool, s: Scan, env: Env)
    ensures s.flushes <= Walk(t, dir, includeHidden, s, env).scan.flushes
    decreases t, if t.Listing? then |t.entries| + 1 else 0
  {
    if t.Listing? { WalkFromFlushes(t, 0, dir, includeHidden, s, env); }
  }

  lemma {:induction false} WalkFromFlushes(t: Tree, i: nat, dir: string, includeHidden: bool, s: Scan, env: Env)
    requires t.Listing? && i <= |t.entries|
    ensures s.flushes <= WalkFrom(t, i, dir, includeHidden, s, env).scan.flushes
    decreases t, |t.entries| - i
  {
    if i < |t.entries| {
      var e := t.entries[i];
      var row := RowOf(e, dir, includeHidden);
      if row.None? {
        WalkFromFlushes(t, i + 1, dir, includeHidden, s, env);
      } else {
        var (q, ok) := QueueRow(s, row.value, env);
        if ok && row.value.isDir {
          var sub := Walk(e.kind.sub, row.value.path, includeHidden, q, env);
          WalkFlushes(e.kind.sub, row.value.path, includeHidden, q, env);
          WalkFromFlushes(t, i + 1, dir, includeHidden, sub.scan, env);
        } else if ok {
          WalkFromFlushes(t, i + 1, dir, includeHidden, q, env);
        }
      }
    }
  }

  lemma {:induction false} WalkComplete(t: Tree, dir: string, includeHidden: bool, s: Scan, env: Env)
    requires Quiet(env, s.flushes, Walk(t, dir, includeHidden, s, env).scan.flushes)
    ensures Complete(Walk(t, dir, includeHidden, s, env), Rows(t, dir, includeHidden))
    decreases t, if t.Listing? then |t.entries| + 1 else 0
  {
    if t.Listing? { WalkFromComplete(t, 0, dir, includeHidden, s, env); }
  }

  ghost predicate Complete(w: Walked, rows: seq<FileRow>) {
    w.queued == rows && w.outcome == Some(CountFiles(w.queued))
  }

  lemma DirComplete(t: Tree, i: nat, dir: string, includeHidden: bool, s: Scan, env: Env)
    requires t.Listing? && i < |t.entries|
    requires RowOf(t.entries[i], dir, includeHidden).Some? && RowOf(t.entries[i], dir, includeHidden).value.isDir
    requires QueueRow(s, RowOf(t.entries[i], dir, includeHidden).value, env).1
    requires var row := RowOf(t.entries[i], dir, includeHidden).value;
      var sub := Walk(t.entries[i].kind.sub, row.path, includeHidden, QueueRow(s, row, env).0, env);
      Complete(sub, Rows(t.entries[i].kind.sub, row.path, includeHidden))
      && Complete(WalkFrom(t, i + 1, dir, includeHidden, sub.scan, env), RowsFrom(t, i + 1, dir, includeHidden))
    ensures Complete(WalkFrom(t, i, dir, includeHidden, s, env), RowsFrom(t, i, dir, includeHidden))
  {
    var row := RowOf(t.entries[i], dir, includeHidden).value;
    WalkDirStep(t, i, dir, includeHidden, s, env);
    DirCount(row, Rows(t.entries[i].kind.sub, row.path, includeHidden), RowsFrom(t, i + 1, dir, includeHidden));
  }

  lemma FileComplete(t: Tree, i: nat, dir: string, includeHidden: bool, s: Scan, env: Env)
    requires t.Listing? && i < |t.entries|
    requires RowOf(t.entries[i], dir, includeHidden).Some? && !RowOf(t.entries[i], dir, includeHidden).value.isDir
    requires QueueRow(s, RowOf(t.entries[i], dir, includeHidden).value, env).1
    requires var q := QueueRow(s, RowOf(t.entries[i], dir, includeHidden).value, env).0;
      Complete(WalkFrom(t, i + 1, dir, includeHidden, q, env), RowsFrom(t, i + 1, dir, includeHidden))
    ensures Complete(WalkFrom(t, i, dir, includeHidden, s, env), RowsFrom(t, i, dir, includeHidden))
  {
    WalkFileStep(t, i, dir, includeHidden, s, env);
    FileCount(RowOf(t.entries[i], dir, includeHidden).value, RowsFrom(t, i + 1, dir, includeHidden));
  }

  lemma {:induction false} WalkFromComplete(t: Tree, i: nat, dir: string, includeHidden: bool, s: Scan, env: Env)
    requires t.Listing? && i <= |t.entries|
    requires Quiet(env, s.flushes, WalkFrom(t, i, dir, includeHidden, s, env).scan.flushes)
    ensures Complete(WalkFrom(t, i, dir, includeHidden, s, env), RowsFrom(t, i, dir, includeHidden))
    decreases t, |t.entries| - i
  {
    if i < |t.entries| {
      var e := t.entries[i];
      var row := RowOf(e, dir, includeHidden);
      if row.None? {
        WalkFromComplete(t, i + 1, dir, includeHidden, s, env);
        assert [] + RowsFrom(t, i + 1, dir, includeHidden) == RowsFrom(t, i + 1, dir, includeHidden);
      } else {
        var (q, ok) := QueueRow(s, row.value, env);
        assert ok;
        if row.value.isDir {
          var sub := Walk(e.kind.sub, row.value.path, includeHidden, q, env);
          WalkFlushes(e.kind.sub, row.value.path, includeHidden, q, env);
          WalkFromFlushes(t, i + 1, dir, includeHidden, sub.scan, env);
          WalkComplete(e.kind.sub, row.value.path, includeHidden, q, env);
          WalkFromComplete(t, i + 1, dir, includeHidden, sub.scan, env);
          DirComplete(t, i, dir, includeHidden, s, env);
        } else {
          WalkFromComplete(t, i + 1, dir, includeHidden, q, env);
          FileComplete(t, i, dir, includeHidden, s, env);
        }
      }
    }
  }

  // ----- scan_dir

  /** What a scan leaves in the table, and its count. */
  datatype Scanned = Scanned(table: map<string, FileRow>, outcome: Option<nat>)

  /** A failed walk returns at once and drops what was pending; otherwise the rest is flushed. */
  function ScanDir(t: Tree, dir: string, includeHidden: bool, table: map<string, FileRow>, env: Env): Scanned {
    var w := Walk(t, dir, includeHidden, Scan([], [], 0), env);
    if w.outcome.None? || (w.scan.pending != [] && env.fails(w.scan.flushes))
    then Scanned(Upsert(table, w.scan.committed), None)
    else Scanned(Upsert(table, w.scan.committed + w.scan.pending), w.outcome)
  }

  /** How many flushes a scan attempts. */
  function ScanFlushes(t: Tree, dir: string, includeHidden: bool, env: Env): nat {
    var w := Walk(t, dir, includeHidden, Scan([], [], 0), env);
    w.scan.flushes + if w.outcome.Some? && w.scan.pending != [] then 1 else 0
  }

  /** When none of the flushes it attempts fails, every qualifying row is stored, the count is the number
      of qualifying files, and neither depends on the batch size; a rescan changes nothing. */
  lemma ScanComplete(t: Tree, dir: string, includeHidden: bool, table: map<string, FileRow>, env: Env)
    requires Quiet(env, 0, ScanFlushes(t, dir, includeHidden, env))
    ensures var r := ScanDir(t, dir, includeHidden, table, env);
      && r.table == Upsert(table, Rows(t, dir, includeHidden))
      && r.outcome == Some(CountFiles(Rows(t, dir, includeHidden)))
      && ScanDir(t, dir, includeHidden, r.table, env) == r
  {
    WalkComplete(t, dir, includeHidden, Scan([], [], 0), env);
    WalkConserves(t, dir, includeHidden, Scan([], [], 0), env);
    var w := Walk(t, dir, includeHidden, Scan([], [], 0), env);
    assert w.scan.committed + w.scan.pending == [] + [] + w.queued == w.queued;
    RescanChangesNothing(table, Rows(t, dir, includeHidden));
  }

  /** With failures: a successful scan stores exactly the rows it queued, in order; a failed one stores
      those that were flushed and not those still pending. */
  lemma ScanUnderFailures(t: Tree, dir: string, includeHidden: bool, table: map<string, FileRow>, env: Env)
    returns (stored: seq<FileRow>)
    ensures var r := ScanDir(t, dir, includeHidden, table, env);
      var w := Walk(t, dir, includeHidden, Scan([], [], 0), env);
      && r.table == Upsert(table, stored) && stored <= w.queued
      && (r.outcome.Some? ==> stored == w.queued && r.outcome.value <= CountFiles(stored))
      && (r.outcome.None? ==> stored == w.scan.committed && stored + w.scan.pending == w.queued)
  {
    WalkConserves(t, dir, includeHidden, Scan([], [], 0), env);
    WalkCount(t, dir, includeHidden, Scan([], [], 0), env);
    var w := Walk(t, dir, includeHidden, Scan([], [], 0), env);
    assert w.scan.committed + w.scan.pending == [] + [] + w.queued == w.queued;
    var r := ScanDir(t, dir, includeHidden, table, env);
    stored := if r.outcome.Some? then w.queued else w.scan.committed;
  }

  /** The count of a successful scan is short of the files it stored by exactly the files queued in failed
      subdirectories, so it is right if and only if there are none. */
  lemma ScanCountIff(t: Tree, dir: string, includeHidden: bool, table: map<string, FileRow>, env: Env)
    returns (stored: seq<FileRow>)
    requires ScanDir(t, dir, includeHidden, table, env).outcome.Some?
    ensures var r := ScanDir(t, dir, includeHidden, table, env);
      var lost := Dropped(t, dir, includeHidden, Scan([], [], 0), env);
      && r.table == Upsert(table, stored)
      && CountFiles(stored) == r.outcome.value + lost
      && (r.outcome.value == CountFiles(stored) <==> lost == 0)
  {
    stored := ScanUnderFailures(t, dir, includeHidden, table, env);
    WalkCount(t, dir, includeHidden, Scan([], [], 0), env);
  }

  ghost predicate DistinctPaths(rows: seq<FileRow>) {
    forall i, j :: 0 <= i < j < |rows| ==> rows[i].path != rows[j].path
  }

  lemma OnceEach(rows: seq<FileRow>, i: nat)
    requires DistinctPaths(rows) && i < |rows|
    ensures multiset(rows)[rows[i]] == 1
  {
    var a, b := rows[..i], rows[i + 1..];
    assert rows == a + [rows[i]] + b;
    assert rows[i] !in multiset(a) && rows[i] !in multiset(b);
  }

  /** Rows written to an empty table are found there exactly when they were not missed. */
  lemma FoundIff(rows: seq<FileRow>, stored: seq<FileRow>, missing: seq<FileRow>, row: FileRow)
    requires Splits(rows, stored, missing) && DistinctPaths(rows) && row in rows
    ensures row.path in Upsert(map[], stored) <==> row !in missing
  {
    var i :| 0 <= i < |rows| && rows[i] == row;
    OnceEach(rows, i);
    assert row in multiset(rows);
    UpsertAt(map[], stored, row.path);
    if k :| 0 <= k < |stored| && stored[k].path == row.path {
      assert stored[k] in multiset(stored) && stored[k] in multiset(rows);
      var j :| 0 <= j < |rows| && rows[j] == stored[k];
      assert i == j && row in multiset(stored);
      assert multiset(missing)[row] == 0;
    } else {
      assert row !in multiset(stored);
      assert row in multiset(missing);
    }
  }

  /** A successful scan stores every row of the tree if and only if no failed flush inside a subdirectory cut
      its walk short; and, paths being distinct, exactly the rows it would have come to are absent. */
  lemma ScanStoresIff(t: Tree, dir: string, includeHidden: bool, table: map<string, FileRow>, env: Env)
    returns (stored: seq<FileRow>, missing: seq<FileRow>)
    requires ScanDir(t, dir, includeHidden, table, env).outcome.Some?
    ensures missing == Missing(t, dir, includeHidden, Scan([], [], 0), env)
    ensures ScanDir(t, dir, includeHidden, table, env).table == Upsert(table, stored)
    ensures stored == Rows(t, dir, includeHidden) <==> missing == []
    ensures DistinctPaths(Rows(t, dir, includeHidden)) ==>
      forall row :: row in Rows(t, dir, includeHidden) ==> (row.path in Upsert(map[], stored) <==> row !in missing)
  {
    var rows, s := Rows(t, dir, includeHidden), Scan([], [], 0);
    missing := Missing(t, dir, includeHidden, s, env);
    stored := ScanUnderFailures(t, dir, includeHidden, table, env);
    WalkSplits(t, dir, includeHidden, s, env);
    WalkQueuesInOrder(t, dir, includeHidden, s, env);
    SubsequenceLength(stored, rows);
    assert |rows| == |multiset(rows)| == |multiset(stored) + multiset(missing)| == |stored| + |missing|;
    if DistinctPaths(rows) {
      forall row | row in rows ensures row.path in Upsert(map[], stored) <==> row !in missing {
        FoundIff(rows, stored, missing, row);
      }
    }
  }

  predicate OnlyFirst(n: nat) { n == 0 }

  function FileEntry(name: string, m: Meta): Entry { Found(name, Regular(Some(m))) }

  /** A directory `d` in which a file `f` comes first. */
  function OneDirectory(m: Meta, others: seq<Entry>): Tree {
    Listing([Found("d", Directory(Listing([FileEntry("f", m)] + others)))])
  }

  function RowD(): FileRow { FileRow("d", "/d", "", true, None, false) }

  function RowF(m: Meta): FileRow { FileRow("f", "/d/f", "/d", false, Some(m), false) }

  /** The flush that `f` fills fails: the walk of `d` ends there, and the walk of the tree goes on. */
  lemma FirstFlushFails(m: Meta, others: seq<Entry>)
    requires m.size <= MAX_FILE_SIZE_BYTES
    ensures var w := Walk(OneDirectory(m, others), "", false, Scan([], [], 0), Env(2, OnlyFirst));
      w.scan == Scan([], [RowD(), RowF(m)], 1) && w.outcome == Some(0)
  {
    var t := OneDirectory(m, others);
    var sub, env := t.entries[0].kind.sub, Env(2, OnlyFirst);
    var d, f := RowD(), RowF(m);
    assert PathOf("", "d") == "/d" && PathOf("/d", "f") == "/d/f";
    assert RowOf(t.entries[0], "", false) == Some(d) && RowOf(sub.entries[0], "/d", false) == Some(f);
    var s0, s1, s2 := Scan([], [], 0), Scan([], [d], 0), Scan([], [d, f], 1);
    assert QueueRow(s0, d, env) == (s1, true) by { assert s0.pending + [d] == [d]; }
    assert QueueRow(s1, f, env) == (s2, false) by { assert s1.pending + [f] == [d, f]; }
    assert WalkFrom(sub, 0, "/d", false, s1, env) == Walked(s2, [f], None);
    assert WalkFrom(t, 1, "", false, s2, env) == Walked(s2, [], Some(0));
    WalkDirStep(t, 0, "", false, s0, env);
  }

  /** A failed flush inside a subdirectory is swallowed there: the scan succeeds, its row is stored by
      the last flush, and the file is missing from the count. */
  lemma SwallowedFailureUndercounts(m: Meta)
    requires m.size <= MAX_FILE_SIZE_BYTES
    ensures var r := ScanDir(OneDirectory(m, []), "", false, map[], Env(2, OnlyFirst));
      r.outcome == Some(0) && "/d/f" in r.table
  {
    FirstFlushFails(m, []);
    assert [] + [RowD(), RowF(m)] == [RowD(), RowF(m)];
    UpsertAt(map[], [RowD(), RowF(m)], "/d/f");
    assert [RowD(), RowF(m)][1].path == "/d/f";
  }

  /** The same with a second file: the walk of the subdirectory is over before it comes to it, the scan
      succeeds all the same, and the file is not in the table. */
  lemma SwallowedFailureLosesFile(m: Meta)
    requires m.size <= MAX_FILE_SIZE_BYTES
    ensures var r := ScanDir(OneDirectory(m, [FileEntry("g", m)]), "", false, map[], Env(2, OnlyFirst));
      r.outcome == Some(0) && "/d/g" !in r.table
  {
    FirstFlushFails(m, [FileEntry("g", m)]);
    assert [] + [RowD(), RowF(m)] == [RowD(), RowF(m)];
    UpsertAt(map[], [RowD(), RowF(m)], "/d/g");
    assert "/d/g" != "/d" && "/d/g" != "/d/f" by { assert "/d/g"[3] != "/d/f"[3]; }
  }

  // ----- the program

  class Scanner {
    const env: Env
    var table: map<string, FileRow>
    var pending: seq<FileRow>
    var flushes: nat
    ghost var start: map<string, FileRow>
    ghost var committed: seq<FileRow>

    /** The table is what the committed rows made of the table at the start. */
    ghost predicate Valid()
      reads this
    {
      table == Upsert(start, committed)
    }

    ghost function Now(): Scan
      reads this
    {
      Scan(committed, pending, flushes)
    }

    constructor (table: map<string, FileRow>, env: Env)
      ensures Valid() && this.table == start == table && this.env == env && Now() == Scan([], [], 0)
    {
      this.table, this.env := table, env;
      pending, flushes := [], 0;
      start, committed := table, [];
    }

    /** `upsert_files`: all rows or none. */
    method UpsertFiles() returns (ok: bool)
      requires Valid()
      modifies this
      ensures Valid() && start == old(start) && pending == old(pending)
      ensures ok <==> pending == [] || !env.fails(old(flushes))
      ensures Now() == if pending == [] then old(Now())
        else Scan(if ok then old(committed) + pending else old(committed), pending, old(flushes) + 1)
    {
      if pending == [] {
        return true;
      }
      flushes := flushes + 1;
      if env.fails(flushes - 1) {
        return false;
      }
      UpsertAppend(start, committed, pending);
      var next := table;
      for i := 0 to |pending|
        invariant Upsert(table, pending) == Upsert(next, pending[i..])
        invariant table == old(table) && pending == old(pending) && committed == old(committed) && start == old(start)
        invariant flushes == old(flushes) + 1
      {
        assert pending[i..][1..] == pending[i + 1..];
        next := next[pending[i].path := pending[i]];
      }
      table := next;
      committed := committed + pending;
      ok := true;
    }

    method Queue(row: FileRow) returns (ok: bool)
      requires Valid()
      modifies this
      ensures Valid() && start == old(start)
      ensures (Now(), ok) == QueueRow(old(Now()), row, env)
    {
      pending := pending + [row];
      ok := true;
      if |pending| >= env.batch {
        ok := UpsertFiles();
        if ok {
          pending := [];
        }
      }
    }

    method WalkDir(t: Tree, dir: string, includeHidden: bool) returns (count: Option<nat>, ghost queued: seq<FileRow>)
      requires Valid()
      modifies this
      ensures Valid() && start == old(start)
      ensures Walked(Now(), queued, count) == Walk(t, dir, includeHidden, old(Now()), env)
      decreases t
    {
      queued := [];
      if t.NoAccess? {
        return Some(0), [];
      }
      var n := 0;
      ghost var goal := WalkFrom(t, 0, dir, includeHidden, Now(), env);
      for i := 0 to |t.entries|
        invariant Valid() && start == old(start)
        invariant goal == Onto(queued, n, WalkFrom(t, i, dir, includeHidden, Now(), env))
      {
        var e := t.entries[i];
        var row := RowOf(e, dir, includeHidden);
        ghost var s := Now();
        if row.None? {
          SkippedOne(queued, n, t, i, dir, includeHidden, s, env);
        } else {
          var ok := Queue(row.value);
          if !ok {
            queued := queued + [row.value];
            return None, queued;
          }
          if row.value.isDir {
            ghost var q, below := Now(), [];
            var files;
            files, below := WalkDir(e.kind.sub, row.value.path, includeHidden);
            DoneDir(queued, n, t, i, dir, includeHidden, s, env, q, row.value, Walked(Now(), below, files));
            n := n + if files.Some? then files.value else 0;
            queued := queued + ([row.value] + below);
          } else {
            DoneFile(queued, n, t, i, dir, includeHidden, s, env, Now(), row.value);
            n := n + 1;
            queued := queued + [row.value];
          }
        }
      }
      count := Some(n);
    }

    method ScanAll(t: Tree, dir: string, includeHidden: bool) returns (count: Option<nat>)
      requires Valid() && Now() == Scan([], [], 0)
      modifies this
      ensures Scanned(table, count) == ScanDir(t, dir, includeHidden, old(start), env)
    {
      ghost var queued;
      count, queued := WalkDir(t, dir, includeHidden);
      if count.None? {
        return None;
      }
      ghost var before := Now();
      var ok := UpsertFiles();
      assert before.committed + [] == before.committed;
      if !ok {
        return None;
      }
    }
  }

  /** Rows and count of the entries already done, in front of the rest. */
  ghost function Onto(queued: seq<FileRow>, n: nat, w: Walked): Walked {
    Walked(w.scan, queued + w.queued, if w.outcome.None? then None else Some(n + w.outcome.value))
  }

  lemma OntoDir(queued: seq<FileRow>, n: nat, row: FileRow, below: seq<FileRow>, files: Option<nat>, rest: Walked)
    ensures var k := if files.Some? then files.value else 0;
      Onto(queued, n, Walked(rest.scan, [row] + below + rest.queued,
                             if rest.outcome.None? then None else Some(rest.outcome.value + k)))
        == Onto(queued + ([row] + below), n + k, rest)
  {
    assert queued + ([row] + below + rest.queued) == queued + ([row] + below) + rest.queued;
  }

  lemma OntoFile(queued: seq<FileRow>, n: nat, row: FileRow, rest: Walked)
    ensures Onto(queued, n, Walked(rest.scan, [row] + rest.queued,
                                   if rest.outcome.None? then None else Some(rest.outcome.value + 1)))
         == Onto(queued + [row], n + 1, rest)
  {
    assert queued + ([row] + rest.queued) == queued + [row] + rest.queued;
  }

  /** One entry more is done: one that gives no row, a directory, a file. */
  lemma SkippedOne(queued: seq<FileRow>, n: nat, t: Tree, i: nat, dir: string, includeHidden: bool, s: Scan, env: Env)
    requires t.Listing? && i < |t.entries| && RowOf(t.entries[i], dir, includeHidden).None?
    ensures Onto(queued, n, WalkFrom(t, i, dir, includeHidden, s, env))
         == Onto(queued, n, WalkFrom(t, i + 1, dir, includeHidden, s, env))
  {
  }

  lemma DoneDir(queued: seq<FileRow>, n: nat, t: Tree, i: nat, dir: string, includeHidden: bool, s: Scan, env: Env,
                q: Scan, row: FileRow, sub: Walked)
    requires t.Listing? && i < |t.entries| && RowOf(t.entries[i], dir, includeHidden) == Some(row) && row.isDir
    requires QueueRow(s, row, env) == (q, true) && sub == Walk(t.entries[i].kind.sub, row.path, includeHidden, q, env)
    ensures Onto(queued, n, WalkFrom(t, i, dir, includeHidden, s, env))
         == Onto(queued + ([row] + sub.queued), n + if sub.outcome.Some? then sub.outcome.value else 0,
                 WalkFrom(t, i + 1, dir, includeHidden, sub.scan, env))
  {
    WalkDirStep(t, i, dir, includeHidden, s, env);
    OntoDir(queued, n, row, sub.queued, sub.outcome, WalkFrom(t, i + 1, dir, includeHidden, sub.scan, env));
  }

  lemma DoneFile(queued: seq<FileRow>, n: nat, t: Tree, i: nat, dir: string, includeHidden: bool, s: Scan, env: Env,
                 q: Scan, row: FileRow)
    requires t.Listing? && i < |t.entries| && RowOf(t.entries[i], dir, includeHidden) == Some(row) && !row.isDir
    requires QueueRow(s, row, env) == (q, true)
    ensures Onto(queued, n, WalkFrom(t, i, dir, includeHidden, s, env))
         == Onto(queued + [row], n + 1, WalkFrom(t, i + 1, dir, includeHidden, q, env))
  {
    WalkFileStep(t, i, dir, includeHidden, s, env);
    OntoFile(queued, n, row, WalkFrom(t, i + 1, dir, includeHidden, q, env));
  }
}

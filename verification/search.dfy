/** The value search, `ifdwalk` and `tiffwalk`: every entry of every loaded
    directory is resolved and compared with the target, and each hit is
    reported with the path that leads to it. */
module Search {
  import opened Results
  import opened Bytes
  import opened FieldTypes
  import opened Directory
  import opened Resolve
  import opened Header
  import opened Chain

  /** The IFD type code: its values are offsets of nested directories. */
  const IfdType := 13

  /** What to look for: an integer, or a byte string. */
  datatype Target = IntTarget(n: int) | BytesTarget(bs: seq<byte>)

  /** A path token: `(idx,)` for a main-chain directory, `(tag, idx)` for a
      sub-directory (tag 0x14a) or a nested directory. */
  datatype Segment = Index(i: nat) | Pair(tag: nat, index: nat)

  type Path = seq<Segment>

  /** One line of output: the path and the tag of the matching entry. */
  datatype Match = Match(path: Path, tag: nat)

  /** `t` occurs in `b` starting at position `i`. */
  ghost predicate StartsAt(b: seq<byte>, i: nat, t: seq<byte>)
  {
    i + |t| <= |b| && b[i..i + |t|] == t
  }

  /** `t in b` for byte strings: `t` occurs contiguously in `b`. */
  ghost predicate Occurs(t: seq<byte>, b: seq<byte>)
  {
    exists i: nat :: StartsAt(b, i, t)
  }

  /** Shifting the search one position to the right. */
  lemma StartsAtTail(b: seq<byte>, i: nat, t: seq<byte>)
    requires |b| > 0
    ensures StartsAt(b, i + 1, t) <==> StartsAt(b[1..], i, t)
  {
    if i + 1 + |t| <= |b| {
      assert b[i + 1..i + 1 + |t|] == b[1..][i..i + |t|];
    }
  }

  /** `t` occurs in a non-empty `b` exactly when it starts at the front or
      occurs in the rest. */
  lemma OccursStep(b: seq<byte>, t: seq<byte>)
    requires |t| <= |b| && b != []
    ensures Occurs(t, b) <==> (b[..|t|] == t || Occurs(t, b[1..]))
  {
    if Occurs(t, b) {
      var i: nat :| StartsAt(b, i, t);
      if i == 0 {
        assert b[0..0 + |t|] == b[..|t|];
      } else {
        StartsAtTail(b, i - 1, t);
      }
    }
    if b[..|t|] == t {
      assert StartsAt(b, 0, t);
    }
    if Occurs(t, b[1..]) {
      var i: nat :| StartsAt(b[1..], i, t);
      StartsAtTail(b, i, t);
    }
  }

  /** Substring search by trying every start position in turn. */
  function Contains(b: seq<byte>, t: seq<byte>): (r: bool)
    ensures r <==> Occurs(t, b)
    decreases |b|
  {
    if |t| > |b| then
      assert forall i: nat :: !StartsAt(b, i, t);
      false
    else if b[..|t|] == t then
      assert StartsAt(b, 0, t);
      true
    else
      OccursStep(b, t);
      Contains(b[1..], t)
  }

  /** When a resolved value matches the target: a byte string containing a
      byte-string target, or a tuple holding an integer target. A byte
      string never matches an integer, nor a tuple a byte string. */
  ghost predicate Hit(target: Target, v: Value)
  {
    match v
    case Bytes(b) => target.BytesTarget? && Occurs(target.bs, b)
    case Numbers(ns) => target.IntTarget? && Int(target.n) in ns
  }

  /** The comparison `ifdwalk` makes for one value. */
  function Matches(target: Target, v: Value): (r: bool)
    ensures r <==> Hit(target, v)
  {
    match v
    case Bytes(b) => target.BytesTarget? && Contains(b, target.bs)
    case Numbers(ns) => target.IntTarget? && Int(target.n) in ns
  }

  /** The comparison examples: 5 is found in the SHORTs `(3, 5, 7)`, `DNG`
      in the text `ADNGFILE`; an integer never matches a byte string, and
      a byte string never matches a tuple. */
  lemma MatchingExamples()
    ensures Matches(IntTarget(5), Numbers([Int(3), Int(5), Int(7)]))
    ensures Matches(BytesTarget([68, 78, 71]), Bytes([65, 68, 78, 71, 70, 73, 76, 69]))
    ensures forall n, b :: !Matches(IntTarget(n), Bytes(b))
    ensures forall t, ns :: !Matches(BytesTarget(t), Numbers(ns))
  {
    var b: seq<byte> := [65, 68, 78, 71, 70, 73, 76, 69];
    assert StartsAt(b, 1, [68, 78, 71]) by {
      assert b[1..4] == [68, 78, 71];
    }
  }

  /** The type code `ifd[tag][0]`. */
  function TypeCode(ifd: Ifd, tag: nat): nat
  {
    match Lookup(ifd, tag)
    case Some(en) => en.typ
    case None => 0
  }

  /** The inner `for tag in ifd` loop over `tags`. A type-13 entry resolves
      to `None`, because 13 is not in the type table, and `enumerate(None)`
      raises; so the nested-directory push is never reached. Any other
      `None` raises at `find_value in value`. */
  function ScanTags(data: seq<byte>, e: Endian, target: Target, path: Path, ifd: Ifd, tags: seq<nat>)
    : (r: Result<seq<Match>>)
    decreases |tags|
  {
    if tags == [] then Ok([])
    else
      var tag := tags[0];
      var v :- Get(data, e, ifd, tag);
      var here :-
        if TypeCode(ifd, tag) == IfdType then Err(NotIterable)
        else match v
          case None => Err(NotIterable)
          case Some(x) => Ok(if Matches(target, x) then [Match(path, tag)] else []);
      var rest :- ScanTags(data, e, target, path, ifd, tags[1..]);
      Ok(here + rest)
  }

  /** A directory in scope of one `ifdwalk` pass, with its path. */
  datatype Scoped = Scoped(path: Path, ifd: Ifd)

  /** `ifds + subifds` of `ifdwalk`, each with `prefix + midfix`. */
  function Scope(tiff: Tiff, prefix: Path): (s: seq<Scoped>)
    ensures |s| == |tiff.ifds| + |tiff.subifds|
    ensures forall i :: 0 <= i < |tiff.ifds| ==> s[i] == Scoped(prefix + [Index(i)], tiff.ifds[i])
    ensures forall i :: 0 <= i < |tiff.subifds| ==>
      s[|tiff.ifds| + i] == Scoped(prefix + [Pair(SubIfdsTag, i)], tiff.subifds[i])
  {
    seq(|tiff.ifds|, i requires 0 <= i < |tiff.ifds| => Scoped(prefix + [Index(i)], tiff.ifds[i])) +
    seq(|tiff.subifds|, i requires 0 <= i < |tiff.subifds| => Scoped(prefix + [Pair(SubIfdsTag, i)], tiff.subifds[i]))
  }

  /** The tags of a directory in iteration order. */
  function Tags(ifd: Ifd): (ts: seq<nat>)
    ensures |ts| == |ifd| && forall j :: 0 <= j < |ifd| ==> ts[j] == ifd[j].tag
  {
    seq(|ifd|, j requires 0 <= j < |ifd| => ifd[j].tag)
  }

  /** Reference definition: each value of `ts` once, in order of first
      occurrence. */
  function Firsts(ts: seq<nat>): (r: seq<nat>)
    ensures forall x :: x in r <==> x in ts
    ensures forall i, j :: 0 <= i < j < |r| ==> r[i] != r[j]
  {
    if ts == [] then []
    else
      var init := ts[..|ts| - 1];
      assert ts == init + [ts[|ts| - 1]];
      var p := Firsts(init);
      if ts[|ts| - 1] in p then p else p + [ts[|ts| - 1]]
  }

  /** `for tag in ifd` over the dict built from `fs`: each tag read, once,
      in the order it was first read. A repeated tag keeps the position of
      its first entry although it holds the last entry's value. */
  lemma {:induction false} TagsBuildDict(fs: seq<Field>)
    ensures Tags(BuildDict(fs)) == Firsts(Tags(fs))
  {
    if fs != [] {
      var init := fs[..|fs| - 1];
      var f := fs[|fs| - 1];
      TagsBuildDict(init);
      TagsSnoc(fs);
      assert BuildDict(fs) == Insert(BuildDict(init), f);
      FirstsSnoc(Tags(init), f.tag);
      TagsInsert(BuildDict(init), f);
    }
  }

  /** The tags of a non-empty field list: those of all but the last, then the last's. */
  lemma TagsSnoc(fs: seq<Field>)
    requires fs != []
    ensures Tags(fs) == Tags(fs[..|fs| - 1]) + [fs[|fs| - 1].tag]
  {
  }

  /** One more value: kept when it is new, dropped when seen before. */
  lemma FirstsSnoc(ts: seq<nat>, x: nat)
    ensures Firsts(ts + [x]) == if x in ts then Firsts(ts) else Firsts(ts) + [x]
  {
    assert (ts + [x])[..|ts|] == ts;
  }

  /** The tag order after `ifd[f.tag] = f.entry`: unchanged for a present
      tag, the new tag last otherwise. */
  lemma TagsInsert(d: Ifd, f: Field)
    ensures Tags(Insert(d, f)) == if f.tag in Tags(d) then Tags(d) else Tags(d) + [f.tag]
  {
    assert HasTag(d, f.tag) <==> f.tag in Tags(d) by {
      if HasTag(d, f.tag) {
        var i :| 0 <= i < |d| && d[i].tag == f.tag;
        assert Tags(d)[i] == f.tag;
      }
    }
    var r := Insert(d, f);
    if HasTag(d, f.tag) {
      assert Tags(r) == Tags(d);
    } else {
      assert Tags(r) == Tags(d) + [f.tag];
    }
  }

  /** A directory read from the file visits its tags in the order the
      entries on file first carry them, each once. */
  lemma ReadIfdTagOrder(data: seq<byte>, e: Endian, offset: nat)
    requires ReadIfd(data, e, offset).Ok?
    ensures var fields := ReadEntries(data, e, offset, EntryCount(data, e, offset));
      && fields.Ok?
      && Tags(ReadIfd(data, e, offset).value.ifd) == Firsts(Tags(fields.value))
  {
    ReadIfdFields(data, e, offset);
    TagsBuildDict(ReadEntries(data, e, offset, EntryCount(data, e, offset)).value);
  }

  /** The outer `for midfix, ifd in ifds + subifds` loop. */
  function ScanAll(data: seq<byte>, e: Endian, target: Target, scope: seq<Scoped>): (r: Result<seq<Match>>)
    decreases |scope|
  {
    if scope == [] then Ok([])
    else
      var here :- ScanTags(data, e, target, scope[0].path, scope[0].ifd, Tags(scope[0].ifd));
      var rest :- ScanAll(data, e, target, scope[1..]);
      Ok(here + rest)
  }

  /** `ifdwalk(tiff, prefix, find_value)`: one pass over the loaded directories. */
  function IfdWalk(data: seq<byte>, e: Endian, tiff: Tiff, prefix: Path, target: Target): Result<seq<Match>>
  {
    ScanAll(data, e, target, Scope(tiff, prefix))
  }

  /** Entry `tag` of `ifd` can be scanned: it resolves to a value, which
      rules out a type outside the table, type 13 included. */
  ghost predicate Scannable(data: seq<byte>, e: Endian, ifd: Ifd, tag: nat)
  {
    Get(data, e, ifd, tag).Ok? && Get(data, e, ifd, tag).value.Some?
  }

  /** `m` is reported for `tag` of `ifd` at `path`. */
  ghost predicate Reported(data: seq<byte>, e: Endian, target: Target, path: Path, ifd: Ifd, tag: nat, m: Match)
  {
    Scannable(data, e, ifd, tag) && Hit(target, Get(data, e, ifd, tag).value.value) && m == Match(path, tag)
  }

  /** Every entry of `ifd` can be scanned. */
  ghost predicate IfdScannable(data: seq<byte>, e: Endian, ifd: Ifd)
  {
    forall j :: 0 <= j < |ifd| ==> Scannable(data, e, ifd, ifd[j].tag)
  }

  /** Some entry of directory `s` reports `m`. */
  ghost predicate DirReports(data: seq<byte>, e: Endian, target: Target, s: Scoped, m: Match)
  {
    exists j :: 0 <= j < |s.ifd| && Reported(data, e, target, s.path, s.ifd, s.ifd[j].tag, m)
  }

  /** A scannable entry is present, has a type in the table and is not a
      directory-offset entry. */
  lemma ScannableKnown(data: seq<byte>, e: Endian, ifd: Ifd, tag: nat)
    requires Scannable(data, e, ifd, tag)
    ensures HasTag(ifd, tag) && TypeOf(TypeCode(ifd, tag)).Some? && TypeCode(ifd, tag) != IfdType
  {
  }

  /** Scanning a list of tags succeeds exactly when each of them resolves to a value. */
  lemma {:induction false} ScanTagsOk(data: seq<byte>, e: Endian, target: Target, path: Path, ifd: Ifd, tags: seq<nat>)
    ensures ScanTags(data, e, target, path, ifd, tags).Ok? <==>
      forall j :: 0 <= j < |tags| ==> Scannable(data, e, ifd, tags[j])
    decreases |tags|
  {
    if tags != [] {
      ScanTagsOk(data, e, target, path, ifd, tags[1..]);
      assert forall j :: 1 <= j < |tags| ==> tags[j] == tags[1..][j - 1];
      if Scannable(data, e, ifd, tags[0]) {
        ScannableKnown(data, e, ifd, tags[0]);
      }
    }
  }

  /** Every match of a successful scan comes from a scanned tag whose value matches. */
  lemma {:induction false} ScanTagsSound(data: seq<byte>, e: Endian, target: Target, path: Path, ifd: Ifd, tags: seq<nat>)
    requires ScanTags(data, e, target, path, ifd, tags).Ok?
    ensures forall m :: m in ScanTags(data, e, target, path, ifd, tags).value ==>
      exists j :: 0 <= j < |tags| && Reported(data, e, target, path, ifd, tags[j], m)
    decreases |tags|
  {
    if tags != [] {
      var rest := ScanTags(data, e, target, path, ifd, tags[1..]);
      ScanTagsSound(data, e, target, path, ifd, tags[1..]);
      forall m | m in ScanTags(data, e, target, path, ifd, tags).value
        ensures exists j :: 0 <= j < |tags| && Reported(data, e, target, path, ifd, tags[j], m)
      {
        if m in rest.value {
          var j :| 0 <= j < |tags[1..]| && Reported(data, e, target, path, ifd, tags[1..][j], m);
          assert tags[j + 1] == tags[1..][j];
        } else {
          assert Reported(data, e, target, path, ifd, tags[0], m);
        }
      }
    }
  }

  /** A successful scan reports every scanned tag whose value matches. */
  lemma {:induction false} ScanTagsComplete(data: seq<byte>, e: Endian, target: Target, path: Path, ifd: Ifd,
                                            tags: seq<nat>, j: nat, m: Match)
    requires ScanTags(data, e, target, path, ifd, tags).Ok?
    requires j < |tags| && Reported(data, e, target, path, ifd, tags[j], m)
    ensures m in ScanTags(data, e, target, path, ifd, tags).value
    decreases |tags|
  {
    if j > 0 {
      assert tags[1..][j - 1] == tags[j];
      ScanTagsComplete(data, e, target, path, ifd, tags[1..], j - 1, m);
    }
  }

  /** Scanning one directory succeeds exactly when all its entries resolve. */
  lemma ScanDirOk(data: seq<byte>, e: Endian, target: Target, s: Scoped)
    ensures ScanTags(data, e, target, s.path, s.ifd, Tags(s.ifd)).Ok? <==> IfdScannable(data, e, s.ifd)
  {
    ScanTagsOk(data, e, target, s.path, s.ifd, Tags(s.ifd));
  }

  /** Every match of a directory scan is reported by one of its entries. */
  lemma ScanDirSound(data: seq<byte>, e: Endian, target: Target, s: Scoped)
    requires ScanTags(data, e, target, s.path, s.ifd, Tags(s.ifd)).Ok?
    ensures forall m :: m in ScanTags(data, e, target, s.path, s.ifd, Tags(s.ifd)).value ==>
      DirReports(data, e, target, s, m)
  {
    var ts := Tags(s.ifd);
    ScanTagsSound(data, e, target, s.path, s.ifd, ts);
    forall m | m in ScanTags(data, e, target, s.path, s.ifd, ts).value ensures DirReports(data, e, target, s, m) {
      var j :| 0 <= j < |ts| && Reported(data, e, target, s.path, s.ifd, ts[j], m);
      assert ts[j] == s.ifd[j].tag;
    }
  }

  /** A directory scan reports every matching entry of the directory. */
  lemma ScanDirComplete(data: seq<byte>, e: Endian, target: Target, s: Scoped, m: Match)
    requires ScanTags(data, e, target, s.path, s.ifd, Tags(s.ifd)).Ok?
    requires DirReports(data, e, target, s, m)
    ensures m in ScanTags(data, e, target, s.path, s.ifd, Tags(s.ifd)).value
  {
    var j :| 0 <= j < |s.ifd| && Reported(data, e, target, s.path, s.ifd, s.ifd[j].tag, m);
    ScanTagsComplete(data, e, target, s.path, s.ifd, Tags(s.ifd), j, m);
  }

  /** Scanning a list of directories succeeds exactly when all their entries resolve. */
  lemma {:induction false} ScanAllOk(data: seq<byte>, e: Endian, target: Target, scope: seq<Scoped>)
    ensures ScanAll(data, e, target, scope).Ok? <==> forall k :: 0 <= k < |scope| ==> IfdScannable(data, e, scope[k].ifd)
    decreases |scope|
  {
    if scope != [] {
      ScanDirOk(data, e, target, scope[0]);
      ScanAllOk(data, e, target, scope[1..]);
      assert forall k :: 1 <= k < |scope| ==> scope[k] == scope[1..][k - 1];
    }
  }

  /** Every match of a scan over directories is reported by one of them. */
  lemma {:induction false} ScanAllSound(data: seq<byte>, e: Endian, target: Target, scope: seq<Scoped>)
    requires ScanAll(data, e, target, scope).Ok?
    ensures forall m :: m in ScanAll(data, e, target, scope).value ==>
      exists k :: 0 <= k < |scope| && DirReports(data, e, target, scope[k], m)
    decreases |scope|
  {
    if scope != [] {
      ScanDirSound(data, e, target, scope[0]);
      ScanAllSound(data, e, target, scope[1..]);
      forall m | m in ScanAll(data, e, target, scope).value
        ensures exists k :: 0 <= k < |scope| && DirReports(data, e, target, scope[k], m)
      {
        if !DirReports(data, e, target, scope[0], m) {
          var k :| 0 <= k < |scope[1..]| && DirReports(data, e, target, scope[1..][k], m);
          assert scope[k + 1] == scope[1..][k];
        }
      }
    }
  }

  /** A scan over directories reports every matching entry of each of them. */
  lemma {:induction false} ScanAllComplete(data: seq<byte>, e: Endian, target: Target, scope: seq<Scoped>,
                                           k: nat, m: Match)
    requires ScanAll(data, e, target, scope).Ok?
    requires k < |scope| && DirReports(data, e, target, scope[k], m)
    ensures m in ScanAll(data, e, target, scope).value
    decreases |scope|
  {
    if k == 0 {
      ScanDirComplete(data, e, target, scope[0], m);
    } else {
      assert scope[1..][k - 1] == scope[k];
      ScanAllComplete(data, e, target, scope[1..], k - 1, m);
    }
  }

  /** The value of entry `tag` of `ifd` resolves and holds the target. */
  ghost predicate Hits(data: seq<byte>, e: Endian, target: Target, ifd: Ifd, tag: nat)
  {
    Scannable(data, e, ifd, tag) && Hit(target, Get(data, e, ifd, tag).value.value)
  }

  /** Reference output of one directory: one line per tag of `tags` that
      hits, in the order of `tags`. */
  ghost function DirLines(data: seq<byte>, e: Endian, target: Target, path: Path, ifd: Ifd, tags: seq<nat>)
    : seq<Match>
    decreases |tags|
  {
    if tags == [] then []
    else
      (if Hits(data, e, target, ifd, tags[0]) then [Match(path, tags[0])] else []) +
      DirLines(data, e, target, path, ifd, tags[1..])
  }

  /** Reference output of a pass: the lines of each directory in its tag
      order, the directories one after the other. */
  ghost function Lines(data: seq<byte>, e: Endian, target: Target, scope: seq<Scoped>): seq<Match>
    decreases |scope|
  {
    if scope == [] then []
    else DirLines(data, e, target, scope[0].path, scope[0].ifd, Tags(scope[0].ifd)) + Lines(data, e, target, scope[1..])
  }

  /** A successful tag scan prints exactly the reference lines, in order. */
  lemma {:induction false} ScanTagsInOrder(data: seq<byte>, e: Endian, target: Target, path: Path, ifd: Ifd,
                                           tags: seq<nat>)
    requires ScanTags(data, e, target, path, ifd, tags).Ok?
    ensures ScanTags(data, e, target, path, ifd, tags).value == DirLines(data, e, target, path, ifd, tags)
    decreases |tags|
  {
    if tags != [] {
      ScanTagsInOrder(data, e, target, path, ifd, tags[1..]);
    }
  }

  /** A successful scan over directories prints exactly the reference
      lines, in order. */
  lemma {:induction false} ScanAllInOrder(data: seq<byte>, e: Endian, target: Target, scope: seq<Scoped>)
    requires ScanAll(data, e, target, scope).Ok?
    ensures ScanAll(data, e, target, scope).value == Lines(data, e, target, scope)
    decreases |scope|
  {
    if scope != [] {
      ScanTagsInOrder(data, e, target, scope[0].path, scope[0].ifd, Tags(scope[0].ifd));
      ScanAllInOrder(data, e, target, scope[1..]);
    }
  }

  /** No element of `s` appears twice. */
  predicate Once<T(==)>(s: seq<T>)
  {
    forall i, j :: 0 <= i < j < |s| ==> s[i] != s[j]
  }

  /** Joining two repeat-free sequences with no common element gives a
      repeat-free sequence. */
  lemma OnceConcat<T>(a: seq<T>, b: seq<T>)
    requires Once(a) && Once(b) && forall x :: x in a ==> x !in b
    ensures Once(a + b)
  {
    var s := a + b;
    forall i, j | 0 <= i < j < |s| ensures s[i] != s[j] {
      if j < |a| {
        assert s[i] == a[i] && s[j] == a[j];
      } else if i >= |a| {
        assert s[i] == b[i - |a|] && s[j] == b[j - |a|];
      } else {
        assert s[i] == a[i] && s[j] == b[j - |a|];
        assert a[i] in a;
      }
    }
  }

  /** Each line of a directory names that directory's path and one of the
      scanned tags; without a repeated tag, no line is printed twice. */
  lemma {:induction false} DirLinesOnce(data: seq<byte>, e: Endian, target: Target, path: Path, ifd: Ifd,
                                        tags: seq<nat>)
    ensures forall m :: m in DirLines(data, e, target, path, ifd, tags) ==> m.path == path && m.tag in tags
    ensures Once(tags) ==> Once(DirLines(data, e, target, path, ifd, tags))
    decreases |tags|
  {
    if tags != [] {
      var rest := tags[1..];
      DirLinesOnce(data, e, target, path, ifd, rest);
      var here := if Hits(data, e, target, ifd, tags[0]) then [Match(path, tags[0])] else [];
      assert forall t :: t in rest ==> t in tags;
      if Once(tags) {
        assert Once(rest) by {
          forall i, j | 0 <= i < j < |rest| ensures rest[i] != rest[j] {
            assert rest[i] == tags[i + 1] && rest[j] == tags[j + 1];
          }
        }
        assert tags[0] !in rest by {
          forall i | 0 <= i < |rest| ensures rest[i] != tags[0] {
            assert rest[i] == tags[i + 1];
          }
        }
        OnceConcat(here, DirLines(data, e, target, path, ifd, rest));
      }
    }
  }

  /** Each line of a pass names the path of one of its directories. */
  lemma {:induction false} LinesPaths(data: seq<byte>, e: Endian, target: Target, scope: seq<Scoped>)
    ensures forall m :: m in Lines(data, e, target, scope) ==> exists k :: 0 <= k < |scope| && m.path == scope[k].path
    decreases |scope|
  {
    if scope != [] {
      DirLinesOnce(data, e, target, scope[0].path, scope[0].ifd, Tags(scope[0].ifd));
      LinesPaths(data, e, target, scope[1..]);
      forall m | m in Lines(data, e, target, scope[1..])
        ensures exists k :: 0 <= k < |scope| && m.path == scope[k].path
      {
        var k :| 0 <= k < |scope[1..]| && m.path == scope[1..][k].path;
        assert scope[k + 1] == scope[1..][k];
      }
    }
  }

  /** Directories with different paths and without repeated tags print no
      line twice. */
  lemma {:induction false} LinesOnce(data: seq<byte>, e: Endian, target: Target, scope: seq<Scoped>)
    requires forall k :: 0 <= k < |scope| ==> UniqueTags(scope[k].ifd)
    requires forall i, j :: 0 <= i < j < |scope| ==> scope[i].path != scope[j].path
    ensures Once(Lines(data, e, target, scope))
    decreases |scope|
  {
    if scope != [] {
      var s := scope[0];
      var rest := scope[1..];
      assert forall k :: 0 <= k < |rest| ==> rest[k] == scope[k + 1];
      assert Once(Tags(s.ifd));
      DirLinesOnce(data, e, target, s.path, s.ifd, Tags(s.ifd));
      LinesOnce(data, e, target, rest);
      LinesPaths(data, e, target, rest);
      OnceConcat(DirLines(data, e, target, s.path, s.ifd, Tags(s.ifd)), Lines(data, e, target, rest));
    }
  }

  /** The directories of one pass have pairwise different paths: they
      differ in the last token. */
  lemma ScopePaths(tiff: Tiff, prefix: Path)
    ensures var s := Scope(tiff, prefix);
      forall i, j :: 0 <= i < j < |s| ==> s[i].path != s[j].path
  {
    var s := Scope(tiff, prefix);
    var n := |tiff.ifds|;
    forall i, j | 0 <= i < j < |s| ensures s[i].path != s[j].path {
      var a := if i < n then Index(i) else Pair(SubIfdsTag, i - n);
      var b := if j < n then Index(j) else Pair(SubIfdsTag, j - n);
      assert s[i].path == prefix + [a] && s[j].path == prefix + [b];
      assert s[i].path[|prefix|] == a && s[j].path[|prefix|] == b;
    }
  }

  /** One pass prints the lines of the directories in scope order, each
      directory's in its tag order. */
  lemma IfdWalkInOrder(data: seq<byte>, e: Endian, tiff: Tiff, prefix: Path, target: Target)
    requires IfdWalk(data, e, tiff, prefix, target).Ok?
    ensures IfdWalk(data, e, tiff, prefix, target).value == Lines(data, e, target, Scope(tiff, prefix))
  {
    ScanAllInOrder(data, e, target, Scope(tiff, prefix));
  }

  /** When no loaded directory repeats a tag, one pass prints no line twice. */
  lemma IfdWalkOnce(data: seq<byte>, e: Endian, tiff: Tiff, prefix: Path, target: Target)
    requires forall i :: 0 <= i < |tiff.ifds| ==> UniqueTags(tiff.ifds[i])
    requires forall i :: 0 <= i < |tiff.subifds| ==> UniqueTags(tiff.subifds[i])
    ensures Once(Lines(data, e, target, Scope(tiff, prefix)))
  {
    var scope := Scope(tiff, prefix);
    var n := |tiff.ifds|;
    forall k | 0 <= k < |scope| ensures UniqueTags(scope[k].ifd) {
      if k >= n {
        assert scope[n + (k - n)].ifd == tiff.subifds[k - n];
      }
    }
    ScopePaths(tiff, prefix);
    LinesOnce(data, e, target, scope);
  }

  /** One `ifdwalk` pass succeeds exactly when every entry of every loaded
      directory resolves to a value. */
  lemma IfdWalkOk(data: seq<byte>, e: Endian, tiff: Tiff, prefix: Path, target: Target)
    ensures IfdWalk(data, e, tiff, prefix, target).Ok? <==>
      && (forall i :: 0 <= i < |tiff.ifds| ==> IfdScannable(data, e, tiff.ifds[i]))
      && (forall i :: 0 <= i < |tiff.subifds| ==> IfdScannable(data, e, tiff.subifds[i]))
  {
    ScanAllOk(data, e, target, Scope(tiff, prefix));
    ScopeScannable(data, e, tiff, prefix);
  }

  /** The directories in scope are the main-chain directories and the
      sub-directories, so all of them scan exactly when both lists do. */
  lemma ScopeScannable(data: seq<byte>, e: Endian, tiff: Tiff, prefix: Path)
    ensures (forall k :: 0 <= k < |Scope(tiff, prefix)| ==> IfdScannable(data, e, Scope(tiff, prefix)[k].ifd)) <==>
      && (forall i :: 0 <= i < |tiff.ifds| ==> IfdScannable(data, e, tiff.ifds[i]))
      && (forall i :: 0 <= i < |tiff.subifds| ==> IfdScannable(data, e, tiff.subifds[i]))
  {
    var scope := Scope(tiff, prefix);
    var n := |tiff.ifds|;
    forall k | 0 <= k < |scope| ensures scope[k].ifd == if k < n then tiff.ifds[k] else tiff.subifds[k - n] {
      if k >= n {
        assert scope[n + (k - n)].ifd == tiff.subifds[k - n];
      }
    }
    forall i | 0 <= i < |tiff.subifds| ensures scope[n + i].ifd == tiff.subifds[i] {
    }
  }

  /** The directory at position `k` of a pass is main-chain directory `k`
      under `prefix + (k,)`, or sub-directory `k - n` under
      `prefix + (0x14a, k - n)`. */
  lemma ScopeAt(tiff: Tiff, prefix: Path, k: nat)
    requires k < |Scope(tiff, prefix)|
    ensures var n := |tiff.ifds|;
      Scope(tiff, prefix)[k] ==
        if k < n then Scoped(prefix + [Index(k)], tiff.ifds[k])
        else Scoped(prefix + [Pair(SubIfdsTag, k - n)], tiff.subifds[k - n])
  {
    var n := |tiff.ifds|;
    if k >= n {
      assert Scope(tiff, prefix)[n + (k - n)] == Scoped(prefix + [Pair(SubIfdsTag, k - n)], tiff.subifds[k - n]);
    }
  }

  /** Where one match of a pass comes from. */
  lemma SoundAt(data: seq<byte>, e: Endian, tiff: Tiff, prefix: Path, target: Target, m: Match)
    requires IfdWalk(data, e, tiff, prefix, target).Ok? && m in IfdWalk(data, e, tiff, prefix, target).value
    ensures || (exists i :: 0 <= i < |tiff.ifds| &&
                  DirReports(data, e, target, Scoped(prefix + [Index(i)], tiff.ifds[i]), m))
            || (exists i :: 0 <= i < |tiff.subifds| &&
                  DirReports(data, e, target, Scoped(prefix + [Pair(SubIfdsTag, i)], tiff.subifds[i]), m))
  {
    var scope := Scope(tiff, prefix);
    ScanAllSound(data, e, target, scope);
    var k :| 0 <= k < |scope| && DirReports(data, e, target, scope[k], m);
    ScopeAt(tiff, prefix, k);
    if k < |tiff.ifds| {
      assert DirReports(data, e, target, Scoped(prefix + [Index(k)], tiff.ifds[k]), m);
    } else {
      var i := k - |tiff.ifds|;
      assert 0 <= i < |tiff.subifds| &&
        DirReports(data, e, target, Scoped(prefix + [Pair(SubIfdsTag, i)], tiff.subifds[i]), m);
    }
  }

  /** Every match of a pass is a matching entry of a main-chain directory,
      under `prefix + (idx,)`, or of a sub-directory, under
      `prefix + (0x14a, idx)`. */
  lemma IfdWalkSound(data: seq<byte>, e: Endian, tiff: Tiff, prefix: Path, target: Target)
    requires IfdWalk(data, e, tiff, prefix, target).Ok?
    ensures forall m :: m in IfdWalk(data, e, tiff, prefix, target).value ==>
      || (exists i :: 0 <= i < |tiff.ifds| &&
            DirReports(data, e, target, Scoped(prefix + [Index(i)], tiff.ifds[i]), m))
      || (exists i :: 0 <= i < |tiff.subifds| &&
            DirReports(data, e, target, Scoped(prefix + [Pair(SubIfdsTag, i)], tiff.subifds[i]), m))
  {
    forall m | m in IfdWalk(data, e, tiff, prefix, target).value
      ensures || (exists i :: 0 <= i < |tiff.ifds| &&
                    DirReports(data, e, target, Scoped(prefix + [Index(i)], tiff.ifds[i]), m))
              || (exists i :: 0 <= i < |tiff.subifds| &&
                    DirReports(data, e, target, Scoped(prefix + [Pair(SubIfdsTag, i)], tiff.subifds[i]), m))
    {
      SoundAt(data, e, tiff, prefix, target, m);
    }
  }

  /** A matching entry of the directory at position `k` of a pass is
      reported by the pass. */
  lemma ScopeComplete(data: seq<byte>, e: Endian, tiff: Tiff, prefix: Path, target: Target, k: nat, s: Scoped,
                      m: Match)
    requires IfdWalk(data, e, tiff, prefix, target).Ok?
    requires k < |Scope(tiff, prefix)| && Scope(tiff, prefix)[k] == s && DirReports(data, e, target, s, m)
    ensures m in IfdWalk(data, e, tiff, prefix, target).value
  {
    ScanAllComplete(data, e, target, Scope(tiff, prefix), k, m);
  }

  /** Every matching entry of a main-chain directory or of a sub-directory
      is reported by a successful pass, under that directory's path. */
  lemma IfdWalkComplete(data: seq<byte>, e: Endian, tiff: Tiff, prefix: Path, target: Target)
    requires IfdWalk(data, e, tiff, prefix, target).Ok?
    ensures forall m, i ::
      (0 <= i < |tiff.ifds| && DirReports(data, e, target, Scoped(prefix + [Index(i)], tiff.ifds[i]), m)) ==>
      m in IfdWalk(data, e, tiff, prefix, target).value
    ensures forall m, i ::
      (0 <= i < |tiff.subifds| &&
       DirReports(data, e, target, Scoped(prefix + [Pair(SubIfdsTag, i)], tiff.subifds[i]), m)) ==>
      m in IfdWalk(data, e, tiff, prefix, target).value
  {
    var n := |tiff.ifds|;
    forall m, i | 0 <= i < n && DirReports(data, e, target, Scoped(prefix + [Index(i)], tiff.ifds[i]), m)
      ensures m in IfdWalk(data, e, tiff, prefix, target).value
    {
      ScopeComplete(data, e, tiff, prefix, target, i, Scoped(prefix + [Index(i)], tiff.ifds[i]), m);
    }
    forall m, i | 0 <= i < |tiff.subifds| &&
        DirReports(data, e, target, Scoped(prefix + [Pair(SubIfdsTag, i)], tiff.subifds[i]), m)
      ensures m in IfdWalk(data, e, tiff, prefix, target).value
    {
      ScopeComplete(data, e, tiff, prefix, target, n + i, Scoped(prefix + [Pair(SubIfdsTag, i)], tiff.subifds[i]), m);
    }
  }

  /** `ms` holds exactly the matching entries of the main-chain directories,
      under `prefix + (idx,)`, and of the sub-directories, under
      `prefix + (0x14a, idx)`. */
  ghost predicate ReportsAll(data: seq<byte>, e: Endian, target: Target, tiff: Tiff, prefix: Path, ms: seq<Match>)
  {
    forall m :: m in ms <==>
      || (exists i :: 0 <= i < |tiff.ifds| &&
            DirReports(data, e, target, Scoped(prefix + [Index(i)], tiff.ifds[i]), m))
      || (exists i :: 0 <= i < |tiff.subifds| &&
            DirReports(data, e, target, Scoped(prefix + [Pair(SubIfdsTag, i)], tiff.subifds[i]), m))
  }

  /** A successful pass reports exactly the matching entries of the loaded
      directories, each under its directory's path. */
  lemma IfdWalkReports(data: seq<byte>, e: Endian, tiff: Tiff, prefix: Path, target: Target)
    requires IfdWalk(data, e, tiff, prefix, target).Ok?
    ensures ReportsAll(data, e, target, tiff, prefix, IfdWalk(data, e, tiff, prefix, target).value)
  {
    IfdWalkSound(data, e, tiff, prefix, target);
    IfdWalkComplete(data, e, tiff, prefix, target);
  }

  /** One `ifdwalk` pass succeeds exactly when every entry of every loaded
      directory resolves to a value, and it reports exactly the entries whose
      value matches, each under the path of its directory. */
  lemma IfdWalkSpec(data: seq<byte>, e: Endian, tiff: Tiff, prefix: Path, target: Target)
    ensures var r := IfdWalk(data, e, tiff, prefix, target);
      r.Ok? <==>
        && (forall i :: 0 <= i < |tiff.ifds| ==> IfdScannable(data, e, tiff.ifds[i]))
        && (forall i :: 0 <= i < |tiff.subifds| ==> IfdScannable(data, e, tiff.subifds[i]))
    ensures var r := IfdWalk(data, e, tiff, prefix, target);
      r.Ok? ==> ReportsAll(data, e, target, tiff, prefix, r.value)
    ensures var r := IfdWalk(data, e, tiff, prefix, target);
      r.Ok? ==> r.value == Lines(data, e, target, Scope(tiff, prefix))
    ensures var r := IfdWalk(data, e, tiff, prefix, target);
      && r.Ok?
      && (forall i :: 0 <= i < |tiff.ifds| ==> UniqueTags(tiff.ifds[i]))
      && (forall i :: 0 <= i < |tiff.subifds| ==> UniqueTags(tiff.subifds[i]))
      ==> Once(r.value)
  {
    IfdWalkOk(data, e, tiff, prefix, target);
    if IfdWalk(data, e, tiff, prefix, target).Ok? {
      IfdWalkReports(data, e, tiff, prefix, target);
      IfdWalkInOrder(data, e, tiff, prefix, target);
      if (forall i :: 0 <= i < |tiff.ifds| ==> UniqueTags(tiff.ifds[i])) &&
         (forall i :: 0 <= i < |tiff.subifds| ==> UniqueTags(tiff.subifds[i])) {
        IfdWalkOnce(data, e, tiff, prefix, target);
      }
    }
  }

  /** A successful pass met no directory-offset (type 13) entry, so the
      nested-directory work stack is never filled: the `while todo` loop of
      `tiffwalk` runs no iteration. */
  lemma NoNestedWork(data: seq<byte>, e: Endian, tiff: Tiff, prefix: Path, target: Target)
    requires IfdWalk(data, e, tiff, prefix, target).Ok?
    ensures forall i, j :: 0 <= i < |tiff.ifds| && 0 <= j < |tiff.ifds[i]| ==>
      TypeCode(tiff.ifds[i], tiff.ifds[i][j].tag) != IfdType
    ensures forall i, j :: 0 <= i < |tiff.subifds| && 0 <= j < |tiff.subifds[i]| ==>
      TypeCode(tiff.subifds[i], tiff.subifds[i][j].tag) != IfdType
  {
    IfdWalkOk(data, e, tiff, prefix, target);
    forall i, j | 0 <= i < |tiff.ifds| && 0 <= j < |tiff.ifds[i]|
      ensures TypeCode(tiff.ifds[i], tiff.ifds[i][j].tag) != IfdType
    {
      assert IfdScannable(data, e, tiff.ifds[i]);
      ScannableKnown(data, e, tiff.ifds[i], tiff.ifds[i][j].tag);
    }
    forall i, j | 0 <= i < |tiff.subifds| && 0 <= j < |tiff.subifds[i]|
      ensures TypeCode(tiff.subifds[i], tiff.subifds[i][j].tag) != IfdType
    {
      assert IfdScannable(data, e, tiff.subifds[i]);
      ScannableKnown(data, e, tiff.subifds[i], tiff.subifds[i][j].tag);
    }
  }

  /** What `tiffwalk` produces: the matches, in output order, and whether
      the "WARNING: Looping IFDs" message was printed. */
  datatype Report = Report(matches: seq<Match>, looped: bool)

  /** `tiffwalk(fh, find_value)`: open with the raw variants allowed, scan
      the loaded directories with an empty prefix. The `while todo` loop is
      left out: `NoNestedWork` shows it never has work. */
  function TiffWalk(data: seq<byte>, target: Target): (r: Result<Report>)
    ensures Open(data, true).Err? ==> r == Err(Open(data, true).error)
    ensures Open(data, true).Ok? ==>
      var o := Open(data, true).value;
      var ms := IfdWalk(data, o.header.endian, o.tiff, [], target);
      r == if ms.Err? then Err(ms.error) else Ok(Report(ms.value, o.tiff.looped))
    ensures r.Ok? ==> Open(data, true).Ok? && r.value.looped == Open(data, true).value.tiff.looped
    ensures r.Ok? ==>
      var o := Open(data, true).value;
      IfdWalk(data, o.header.endian, o.tiff, [], target) == Ok(r.value.matches)
  {
    var o :- Open(data, true);
    var ms :- IfdWalk(data, o.header.endian, o.tiff, [], target);
    Ok(Report(ms, o.tiff.looped))
  }

  /** The top-level pass reports exactly the matching entries of the
      main-chain directories, under `(idx,)`, and of the sub-directories,
      under `(0x14a, idx)`, in scope order; so every match has a one-token
      path. */
  lemma TopLevelSpec(data: seq<byte>, e: Endian, tiff: Tiff, target: Target)
    requires IfdWalk(data, e, tiff, [], target).Ok?
    ensures ReportsAll(data, e, target, tiff, [], IfdWalk(data, e, tiff, [], target).value)
    ensures forall m :: m in IfdWalk(data, e, tiff, [], target).value ==> |m.path| == 1
    ensures IfdWalk(data, e, tiff, [], target).value == Lines(data, e, target, Scope(tiff, []))
  {
    IfdWalkSpec(data, e, tiff, [], target);
    forall m | m in IfdWalk(data, e, tiff, [], target).value ensures |m.path| == 1 {
      if exists i :: 0 <= i < |tiff.ifds| && DirReports(data, e, target, Scoped([] + [Index(i)], tiff.ifds[i]), m) {
        var i :| 0 <= i < |tiff.ifds| && DirReports(data, e, target, Scoped([] + [Index(i)], tiff.ifds[i]), m);
      } else {
        var i :| 0 <= i < |tiff.subifds| &&
          DirReports(data, e, target, Scoped([] + [Pair(SubIfdsTag, i)], tiff.subifds[i]), m);
      }
    }
  }

  /** A run succeeds exactly when the file opens and every entry of every
      loaded main-chain directory and sub-directory resolves to a value. */
  lemma TiffWalkOk(data: seq<byte>, target: Target)
    ensures TiffWalk(data, target).Ok? <==>
      && Open(data, true).Ok?
      && var o := Open(data, true).value;
      && (forall i :: 0 <= i < |o.tiff.ifds| ==> IfdScannable(data, o.header.endian, o.tiff.ifds[i]))
      && (forall i :: 0 <= i < |o.tiff.subifds| ==> IfdScannable(data, o.header.endian, o.tiff.subifds[i]))
  {
    if Open(data, true).Ok? {
      var o := Open(data, true).value;
      IfdWalkOk(data, o.header.endian, o.tiff, [], target);
    }
  }

  /** Every reported match names a main-chain directory `(idx,)` or a
      sub-directory `(0x14a, idx)` of the opened file, and a tag of it whose
      value matches the target; and every such tag is reported. */
  lemma TiffWalkSpec(data: seq<byte>, target: Target)
    requires TiffWalk(data, target).Ok?
    ensures var o := Open(data, true).value;
      ReportsAll(data, o.header.endian, target, o.tiff, [], TiffWalk(data, target).value.matches)
    ensures forall m :: m in TiffWalk(data, target).value.matches ==> |m.path| == 1
  {
    var o := Open(data, true).value;
    TopLevelSpec(data, o.header.endian, o.tiff, target);
  }

  /** The output lists the main-chain directories first, then the
      sub-directories, each directory's matching tags in dict order; and no
      line appears twice, since `_ifdread` builds each directory as a dict. */
  lemma TiffWalkInOrder(data: seq<byte>, target: Target)
    requires TiffWalk(data, target).Ok?
    ensures var o := Open(data, true).value;
      TiffWalk(data, target).value.matches == Lines(data, o.header.endian, target, Scope(o.tiff, []))
    ensures Once(TiffWalk(data, target).value.matches)
  {
    var o := Open(data, true).value;
    var e := o.header.endian;
    assert IfdWalk(data, e, o.tiff, [], target) == Ok(TiffWalk(data, target).value.matches);
    IfdWalkInOrder(data, e, o.tiff, [], target);
    ReinitUniqueTags(data, e, o.header.firstIfd);
    IfdWalkOnce(data, e, o.tiff, [], target);
  }
}

/** The directory chain, `TIFF.reinit_from`, and the constructor that
    starts it, `TIFF.__init__`. */
module Chain {
  import opened Results
  import opened Bytes
  import opened FieldTypes
  import opened Directory
  import opened Resolve
  import opened Header

  /** Hard cap on main-chain directories and on sub-directories. */
  const MaxIfds := 32

  /** SubIFDs, the tag whose values are offsets of further directories. */
  const SubIfdsTag := 0x14a

  datatype Link = Link(ifd: Ifd, next: nat)

  /** One pass of the `while` body: the directory at `offset`, and the
      4-byte next-directory offset read right after its entries. */
  function Step(data: seq<byte>, e: Endian, offset: nat): (r: Result<Link>)
    ensures r.Ok? <==> ReadIfd(data, e, offset).Ok? && ReadIfd(data, e, offset).value.end + 4 <= |data|
    ensures r.Ok? ==> r.value.ifd == ReadIfd(data, e, offset).value.ifd
    ensures r.Ok? ==> var end := EntryPos(offset, EntryCount(data, e, offset));
      r.value.next < Pow256(4) && EncodeUnsigned(e, r.value.next, 4) == data[end..end + 4]
  {
    var d :- ReadIfd(data, e, offset);
    var next :- ReadUnsigned(data, e, d.end, 4);
    Ok(Link(d.ifd, next))
  }

  /** The chain collected by the `while` loop, and whether it stopped on
      the "Looping IFDs" warning. */
  datatype Walked = Walked(ifds: seq<Ifd>, looped: bool)

  /** The `while next_ifd` loop from `offset`, with `ifds` collected and
      `seen` holding every next-offset read so far. The start offset is
      never put into `seen`. The loop is stated for any `step` reading one
      directory and its next pointer; the file's is `Links(data, e)`. */
  function ChainFrom(step: nat -> Result<Link>, offset: nat, ifds: seq<Ifd>, seen: set<nat>): (r: Result<Walked>)
    requires |ifds| < MaxIfds
    ensures r.Ok? ==> ifds <= r.value.ifds && |r.value.ifds| <= MaxIfds
    ensures r.Ok? && !r.value.looped ==> |r.value.ifds| < MaxIfds
    decreases MaxIfds - |ifds|
  {
    if offset == 0 then Ok(Walked(ifds, false))
    else
      var link :- step(offset);
      var collected := ifds + [link.ifd];
      if link.next in seen then Ok(Walked(collected, true))
      else if |collected| >= MaxIfds then Err(TooMany)
      else ChainFrom(step, link.next, collected, seen + {link.next})
  }

  function Chain(step: nat -> Result<Link>, start: nat): Result<Walked>
  {
    ChainFrom(step, start, [], {})
  }

  /** The file's `step`: `Step` on `data` in byte order `e`. */
  function Links(data: seq<byte>, e: Endian): nat -> Result<Link>
  {
    (offset: nat) => Step(data, e, offset)
  }

  /** The offsets reached from `start` by following next-directory
      pointers `k` times: an independent account of the chain. */
  function Trail(step: nat -> Result<Link>, start: nat, k: nat): (r: Result<seq<nat>>)
    ensures r.Ok? ==> |r.value| == k + 1 && r.value[0] == start
  {
    if k == 0 then Ok([start])
    else
      var t :- Trail(step, start, k - 1);
      var link :- step(t[k - 1]);
      Ok(t + [link.next])
  }

  /** Every offset of a trail is the next pointer of the one before it. */
  lemma {:induction false} TrailSteps(step: nat -> Result<Link>, start: nat, k: nat)
    requires Trail(step, start, k).Ok?
    ensures var t := Trail(step, start, k).value;
      forall j :: 0 <= j < k ==> step(t[j]).Ok? && step(t[j]).value.next == t[j + 1]
  {
    if k > 0 {
      TrailSteps(step, start, k - 1);
      var t := Trail(step, start, k).value;
      var s := Trail(step, start, k - 1).value;
      assert t == s + [t[k]];
      assert forall j :: 0 <= j < k ==> t[j] == s[j];
    }
  }

  /** The loop invariant of `reinit_from` in terms of the trail: `m`
      directories collected, each read at the trail's `k`-th offset, and
      `seen` = the next-offsets read so far, all different. */
  ghost predicate OnTrail(step: nat -> Result<Link>, start: nat, m: nat, ifds: seq<Ifd>, seen: set<nat>)
  {
    && |ifds| == m
    && Trail(step, start, m).Ok?
    && var t := Trail(step, start, m).value;
    && (forall k :: 0 <= k < m ==> t[k] != 0 && step(t[k]) == Ok(Link(ifds[k], t[k + 1])))
    && seen == (set j | 1 <= j <= m :: t[j])
    && (forall i, j :: 1 <= i < j <= m ==> t[i] != t[j])
  }

  /** Adding the offset just read keeps `seen` equal to the offsets read. */
  lemma NextSeen(t: seq<nat>, next: nat, m: nat, seen: set<nat>)
    requires |t| == m + 1 && seen == (set j | 1 <= j <= m :: t[j])
    ensures seen + {next} == (set j | 1 <= j <= m + 1 :: (t + [next])[j])
  {
    var t' := t + [next];
    assert forall j :: 1 <= j <= m ==> t'[j] == t[j];
    assert t'[m + 1] == next;
    forall x | x in seen + {next} ensures x in (set j | 1 <= j <= m + 1 :: t'[j]) {
      if x == next {
        assert t'[m + 1] == x;
      } else {
        var j :| 1 <= j <= m && t[j] == x;
        assert t'[j] == x;
      }
    }
  }

  /** One more pass of the loop keeps the invariant, when the offset read
      is new. */
  lemma OnTrailStep(step: nat -> Result<Link>, start: nat, m: nat, ifds: seq<Ifd>, seen: set<nat>)
    requires OnTrail(step, start, m, ifds, seen)
    requires var t := Trail(step, start, m).value;
      t[m] != 0 && step(t[m]).Ok? && step(t[m]).value.next !in seen
    ensures var t := Trail(step, start, m).value;
      var link := step(t[m]).value;
      OnTrail(step, start, m + 1, ifds + [link.ifd], seen + {link.next})
  {
    var t := Trail(step, start, m).value;
    var link := step(t[m]).value;
    var t' := t + [link.next];
    assert Trail(step, start, m + 1) == Ok(t');
    var collected := ifds + [link.ifd];
    assert forall k :: 0 <= k <= m ==> t'[k] == t[k];
    assert forall k :: 0 <= k < m ==> collected[k] == ifds[k];
    NextSeen(t, link.next, m, seen);
  }

  /** What a successful walk promises, stated against the trail. */
  ghost predicate WalkSpec(step: nat -> Result<Link>, start: nat, w: Walked)
  {
    var n := |w.ifds|;
    && n <= MaxIfds
    && Trail(step, start, n).Ok?
    && var t := Trail(step, start, n).value;
    && (forall k :: 0 <= k < n ==> t[k] != 0 && step(t[k]) == Ok(Link(w.ifds[k], t[k + 1])))
    && (w.looped <==> exists j :: 1 <= j < n && t[j] == t[n])
    && (!w.looped ==> t[n] == 0 && n < MaxIfds)
    && (forall i, j :: 1 <= i < j < n ==> t[i] != t[j])
  }

  lemma {:induction false} ChainFromSpec(step: nat -> Result<Link>, start: nat, m: nat, ifds: seq<Ifd>, seen: set<nat>)
    requires m < MaxIfds && OnTrail(step, start, m, ifds, seen)
    requires ChainFrom(step, Trail(step, start, m).value[m], ifds, seen).Ok?
    ensures WalkSpec(step, start, ChainFrom(step, Trail(step, start, m).value[m], ifds, seen).value)
    decreases MaxIfds - m
  {
    var t := Trail(step, start, m).value;
    var w := ChainFrom(step, t[m], ifds, seen).value;
    if t[m] == 0 {
      assert w == Walked(ifds, false);
      assert !exists j :: 1 <= j < m && t[j] == t[m];
    } else {
      var link := step(t[m]).value;
      var t' := t + [link.next];
      assert Trail(step, start, m + 1) == Ok(t');
      var collected := ifds + [link.ifd];
      assert forall k :: 0 <= k <= m ==> t'[k] == t[k];
      assert forall k :: 0 <= k < m ==> collected[k] == ifds[k];
      if link.next in seen {
        assert w == Walked(collected, true);
        var j :| 1 <= j <= m && t[j] == link.next;
        assert t'[j] == t'[m + 1];
      } else {
        OnTrailStep(step, start, m, ifds, seen);
        ChainFromSpec(step, start, m + 1, collected, seen + {link.next});
      }
    }
  }

  /** The chain walk follows the trail: directory `k` is the one at the
      trail's `k`-th offset; the walk stops without warning exactly on a
      zero offset, with fewer than 32 directories, and with the warning
      exactly when the next offset was already read (the start offset
      does not count as read); the offsets read are all different. */
  lemma ChainFollowsTrail(step: nat -> Result<Link>, start: nat)
    requires Chain(step, start).Ok?
    ensures WalkSpec(step, start, Chain(step, start).value)
  {
    ChainFromSpec(step, start, 0, [], {});
  }

  /** Converse of `ChainFromSpec`: from a point on the trail, a walk that
      satisfies `WalkSpec` and has not yet passed its last directory is
      what the loop returns. */
  lemma {:induction false} ChainFromComplete(step: nat -> Result<Link>, start: nat, m: nat, ifds: seq<Ifd>,
                                             seen: set<nat>, w: Walked)
    requires WalkSpec(step, start, w) && m <= |w.ifds| && (w.looped ==> m < |w.ifds|)
    requires m < MaxIfds && OnTrail(step, start, m, ifds, seen) && ifds == w.ifds[..m]
    ensures ChainFrom(step, Trail(step, start, m).value[m], ifds, seen) == Ok(w)
    decreases |w.ifds| - m
  {
    var n := |w.ifds|;
    var full := Trail(step, start, n).value;
    TrailPrefix(step, start, n, m);
    var t := Trail(step, start, m).value;
    assert t[m] == full[m];
    if m == n {
      assert full[n] == 0;
      assert ifds == w.ifds;
    } else {
      assert full[m] != 0 && step(full[m]) == Ok(Link(w.ifds[m], full[m + 1]));
      var link := step(t[m]).value;
      var collected := ifds + [link.ifd];
      assert collected == w.ifds[..m + 1];
      if m + 1 == n && w.looped {
        var j :| 1 <= j < n && full[j] == full[n];
        assert t[j] == full[j];
        assert link.next in seen;
        assert collected == w.ifds;
      } else {
        assert link.next !in seen by {
          forall j | 1 <= j <= m ensures t[j] != link.next {
            assert t[j] == full[j];
          }
        }
        OnTrailStep(step, start, m, ifds, seen);
        TrailPrefix(step, start, n, m + 1);
        ChainFromComplete(step, start, m + 1, collected, seen + {link.next}, w);
      }
    }
  }

  /** `WalkSpec` characterises the walk: the loop returns `w` exactly when
      `w` follows the trail and stops where `WalkSpec` says. In particular
      a chain that reaches offset 0 within 31 directories, or repeats a
      next pointer within 32, without an earlier repeat, is accepted. */
  lemma ChainIffTrail(step: nat -> Result<Link>, start: nat, w: Walked)
    ensures Chain(step, start) == Ok(w) <==> WalkSpec(step, start, w)
  {
    if Chain(step, start) == Ok(w) {
      ChainFollowsTrail(step, start);
    }
    if WalkSpec(step, start, w) {
      assert w.ifds[..0] == [];
      ChainFromComplete(step, start, 0, [], {}, w);
    }
  }

  lemma {:induction false} ChainFromCap(step: nat -> Result<Link>, start: nat, m: nat, ifds: seq<Ifd>, seen: set<nat>)
    requires m < MaxIfds && OnTrail(step, start, m, ifds, seen)
    requires Trail(step, start, MaxIfds).Ok?
    requires var t := Trail(step, start, MaxIfds).value;
      (forall k :: 0 <= k < MaxIfds ==> t[k] != 0) &&
      (forall i, j :: 1 <= i < j <= MaxIfds ==> t[i] != t[j])
    ensures ChainFrom(step, Trail(step, start, m).value[m], ifds, seen) == Err(TooMany)
    decreases MaxIfds - m
  {
    var full := Trail(step, start, MaxIfds).value;
    TrailSteps(step, start, MaxIfds);
    TrailPrefix(step, start, MaxIfds, m);
    var t := Trail(step, start, m).value;
    assert t[m] == full[m] && t[m] != 0;
    var link := step(t[m]).value;
    assert link.next == full[m + 1];
    assert link.next !in seen by {
      forall j | 1 <= j <= m ensures t[j] != link.next {
        assert t[j] == full[j];
      }
    }
    if m + 1 < MaxIfds {
      OnTrailStep(step, start, m, ifds, seen);
      TrailPrefix(step, start, MaxIfds, m + 1);
      ChainFromCap(step, start, m + 1, ifds + [link.ifd], seen + {link.next});
    }
  }

  /** A shorter trail is a prefix of a longer one. */
  lemma {:induction false} TrailPrefix(step: nat -> Result<Link>, start: nat, k: nat, j: nat)
    requires j <= k && Trail(step, start, k).Ok?
    ensures Trail(step, start, j) == Ok(Trail(step, start, k).value[..j + 1])
    decreases k - j
  {
    if j < k {
      TrailPrefix(step, start, k - 1, j);
      var t := Trail(step, start, k).value;
      var s := Trail(step, start, k - 1).value;
      assert t[..k] == s;
      assert t[..j + 1] == s[..j + 1];
    } else {
      assert Trail(step, start, k).value[..k + 1] == Trail(step, start, k).value;
    }
  }

  /** A chain that neither ends nor loops within 32 directories fails the
      `len(self.ifd) < 32` assertion. */
  lemma ChainCap(step: nat -> Result<Link>, start: nat)
    requires Trail(step, start, MaxIfds).Ok?
    requires var t := Trail(step, start, MaxIfds).value;
      (forall k :: 0 <= k < MaxIfds ==> t[k] != 0) &&
      (forall i, j :: 1 <= i < j <= MaxIfds ==> t[i] != t[j])
    ensures Chain(step, start) == Err(TooMany)
  {
    ChainFromCap(step, start, 0, [], {});
  }

  /** A directory whose next pointer is itself is collected twice, then
      the walk stops with the warning. */
  lemma SelfLoop(step: nat -> Result<Link>, a: nat)
    requires a != 0 && step(a).Ok? && step(a).value.next == a
    ensures Chain(step, a) == Ok(Walked([step(a).value.ifd, step(a).value.ifd], true))
  {
    var d := step(a).value.ifd;
    assert [] + [d] == [d] && [d] + [d] == [d, d];
    assert ChainFrom(step, a, [d], {a}) == Ok(Walked([d, d], true));
    assert ChainFrom(step, a, [], {}) == ChainFrom(step, a, [d], {a});
  }

  /** `self.ifdget(self.ifd[0], 0x14a) or []` as the `for` loop sees it:
      nothing for a missing tag, the numbers of a tuple, and the byte
      values of a byte string. */
  function SubIfdOffsets(v: Option<Value>): (offsets: seq<Number>)
    ensures v.None? ==> offsets == []
    ensures v.Some? && v.value.Numbers? ==> offsets == v.value.ns
    ensures v.Some? && v.value.Bytes? ==>
      |offsets| == |v.value.bs| && forall i :: 0 <= i < |offsets| ==> offsets[i] == Int(v.value.bs[i])
  {
    match v
    case None => []
    case Some(Numbers(ns)) => ns
    case Some(Bytes(bs)) => seq(|bs|, i requires 0 <= i < |bs| => Int(bs[i]))
  }

  /** `fh.seek(x)` accepts only a non-negative integer. */
  predicate Seekable(x: Number)
  {
    x.Int? && x.i >= 0
  }

  /** One sub-directory, read on its own (no next pointer). */
  function ReadSubIfd(data: seq<byte>, e: Endian, x: Number): Result<Ifd>
  {
    if !Seekable(x) then Err(BadSeek)
    else
      var d :- ReadIfd(data, e, x.i);
      Ok(d.ifd)
  }

  /** `read` applied to the first `count` offsets in order, stopping at
      the first failure. */
  function ReadEach(read: Number -> Result<Ifd>, offsets: seq<Number>, count: nat): (r: Result<seq<Ifd>>)
    requires count <= |offsets|
    ensures r.Ok? <==> forall i :: 0 <= i < count ==> read(offsets[i]).Ok?
    ensures r.Ok? ==> (|r.value| == count &&
      forall i :: 0 <= i < count ==> read(offsets[i]) == Ok(r.value[i]))
  {
    if count == 0 then Ok([])
    else
      var init :- ReadEach(read, offsets, count - 1);
      var d :- read(offsets[count - 1]);
      var r := init + [d];
      assert forall i :: 0 <= i < count - 1 ==> r[i] == init[i];
      Ok(r)
  }

  /** The sub-directories, each read on its own, in order. */
  function ReadSubIfds(data: seq<byte>, e: Endian, offsets: seq<Number>): (r: Result<seq<Ifd>>)
    ensures r.Ok? <==> forall i :: 0 <= i < |offsets| ==>
      Seekable(offsets[i]) && ReadIfd(data, e, offsets[i].i).Ok?
    ensures r.Ok? ==> (|r.value| == |offsets| &&
      forall i :: 0 <= i < |offsets| ==> r.value[i] == ReadIfd(data, e, offsets[i].i).value.ifd)
  {
    ReadEach(x => ReadSubIfd(data, e, x), offsets, |offsets|)
  }

  /** The parser's state after `reinit_from`: the main chain, the
      sub-directories of its first directory, and whether the walk stopped
      on the loop warning. */
  datatype Tiff = Tiff(ifds: seq<Ifd>, subifds: seq<Ifd>, looped: bool)

  /** The tail of `reinit_from`: the sub-directories named by tag 0x14a
      of the first directory, none when the tag is absent, and a failed
      assertion for 32 or more. */
  function SubIfds(data: seq<byte>, e: Endian, first: Ifd): (r: Result<seq<Ifd>>)
    ensures Get(data, e, first, SubIfdsTag).Err? ==> r == Err(Get(data, e, first, SubIfdsTag).error)
    ensures Get(data, e, first, SubIfdsTag) == Ok(None) ==> r == Ok([])
    ensures Lookup(first, SubIfdsTag).None? ==> r == Ok([])
    ensures Get(data, e, first, SubIfdsTag).Ok? ==>
      var offsets := SubIfdOffsets(Get(data, e, first, SubIfdsTag).value);
      r == if |offsets| >= MaxIfds then Err(TooMany) else ReadSubIfds(data, e, offsets)
    ensures r.Ok? ==>
      var offsets := SubIfdOffsets(Get(data, e, first, SubIfdsTag).value);
      && |r.value| == |offsets| < MaxIfds
      && forall i :: 0 <= i < |offsets| ==>
           Seekable(offsets[i]) && ReadIfd(data, e, offsets[i].i).Ok? &&
           r.value[i] == ReadIfd(data, e, offsets[i].i).value.ifd
  {
    var v :- Get(data, e, first, SubIfdsTag);
    var offsets := SubIfdOffsets(v);
    if |offsets| >= MaxIfds then Err(TooMany)
    else ReadSubIfds(data, e, offsets)
  }

  /** The sub-directory list succeeds exactly when tag 0x14a resolves
      (possibly to nothing), names fewer than 32 offsets, and each of them
      is a non-negative integer whose directory reads. */
  lemma SubIfdsOk(data: seq<byte>, e: Endian, first: Ifd)
    ensures SubIfds(data, e, first).Ok? <==>
      && Get(data, e, first, SubIfdsTag).Ok?
      && var offsets := SubIfdOffsets(Get(data, e, first, SubIfdsTag).value);
      && |offsets| < MaxIfds
      && forall i :: 0 <= i < |offsets| ==> Seekable(offsets[i]) && ReadIfd(data, e, offsets[i].i).Ok?
  {
  }

  /** `reinit_from(start)`: a fresh chain from `start`, then its sub-directories. */
  function Reinit(data: seq<byte>, e: Endian, start: nat): (r: Result<Tiff>)
    ensures start == 0 ==> r == Err(NoDirectory)
    ensures Chain(Links(data, e), start).Err? ==> r == Err(Chain(Links(data, e), start).error)
    ensures Chain(Links(data, e), start).Ok? && Chain(Links(data, e), start).value.ifds == [] ==> r == Err(NoDirectory)
    ensures Chain(Links(data, e), start).Ok? && Chain(Links(data, e), start).value.ifds != [] ==>
      var w := Chain(Links(data, e), start).value;
      var subs := SubIfds(data, e, w.ifds[0]);
      r == if subs.Err? then Err(subs.error) else Ok(Tiff(w.ifds, subs.value, w.looped))
    ensures r.Ok? ==> 1 <= |r.value.ifds| <= MaxIfds && |r.value.subifds| < MaxIfds
    ensures r.Ok? ==> Chain(Links(data, e), start) == Ok(Walked(r.value.ifds, r.value.looped))
    ensures r.Ok? ==> SubIfds(data, e, r.value.ifds[0]) == Ok(r.value.subifds)
  {
    var w :- Chain(Links(data, e), start);
    if |w.ifds| == 0 then Err(NoDirectory)
    else
      var subs :- SubIfds(data, e, w.ifds[0]);
      Ok(Tiff(w.ifds, subs, w.looped))
  }

  /** `reinit_from(start)` succeeds exactly when the walk from `start`
      satisfies `WalkSpec` with at least one directory and the first
      directory's sub-directories read; it then holds that walk. */
  lemma ReinitIffTrail(data: seq<byte>, e: Endian, start: nat, w: Walked, subs: seq<Ifd>)
    ensures Reinit(data, e, start) == Ok(Tiff(w.ifds, subs, w.looped)) <==>
      WalkSpec(Links(data, e), start, w) && w.ifds != [] && SubIfds(data, e, w.ifds[0]) == Ok(subs)
  {
    ChainIffTrail(Links(data, e), start, w);
  }

  /** Every directory of a walked chain was read by `_ifdread`, so no tag
      appears in it twice. */
  lemma ChainUniqueTags(data: seq<byte>, e: Endian, start: nat)
    requires Chain(Links(data, e), start).Ok?
    ensures var w := Chain(Links(data, e), start).value;
      forall i :: 0 <= i < |w.ifds| ==> UniqueTags(w.ifds[i])
  {
    var step := Links(data, e);
    var w := Chain(step, start).value;
    ChainFollowsTrail(step, start);
    var trail := Trail(step, start, |w.ifds|).value;
    forall i | 0 <= i < |w.ifds| ensures UniqueTags(w.ifds[i]) {
      var link := Step(data, e, trail[i]);
      assert link == Ok(Link(w.ifds[i], trail[i + 1]));
      assert w.ifds[i] == ReadIfd(data, e, trail[i]).value.ifd;
    }
  }

  /** Every directory `reinit_from` loads, main-chain or sub-directory, is
      a dict: no tag appears in it twice. */
  lemma ReinitUniqueTags(data: seq<byte>, e: Endian, start: nat)
    requires Reinit(data, e, start).Ok?
    ensures var t := Reinit(data, e, start).value;
      && (forall i :: 0 <= i < |t.ifds| ==> UniqueTags(t.ifds[i]))
      && (forall i :: 0 <= i < |t.subifds| ==> UniqueTags(t.subifds[i]))
  {
    ChainUniqueTags(data, e, start);
  }

  /** What `TIFF(fh)` keeps: the header and the state `reinit_from` left. */
  datatype Opened = Opened(header: Header, tiff: Tiff)

  /** `TIFF.__init__`: parse the header, then walk from the first offset. */
  function Open(data: seq<byte>, allowVariants: bool): (r: Result<Opened>)
    ensures ParseHeader(data, allowVariants).Err? ==> r == Err(ParseHeader(data, allowVariants).error)
    ensures ParseHeader(data, allowVariants).Ok? ==>
      var h := ParseHeader(data, allowVariants).value;
      var t := Reinit(data, h.endian, h.firstIfd);
      r == if t.Err? then Err(t.error) else Ok(Opened(h, t.value))
    ensures r.Ok? ==> ParseHeader(data, allowVariants) == Ok(r.value.header)
    ensures r.Ok? ==> r.value.header.firstIfd != 0
    ensures r.Ok? ==> Reinit(data, r.value.header.endian, r.value.header.firstIfd) == Ok(r.value.tiff)
  {
    var h :- ParseHeader(data, allowVariants);
    var t :- Reinit(data, h.endian, h.firstIfd);
    Ok(Opened(h, t))
  }
}

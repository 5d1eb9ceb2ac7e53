/** `deleteDirectory`: the entries of a subtree, the target included, sorted deepest first
    and deleted one at a time; a failed deletion is logged and the sweep goes on. */
module RecursiveDelete {
  import opened Paths
  import opened FileSystem

  /** Non-increasing depth, the order of `sorted((a, b) -> b.getNameCount() - a.getNameCount())`. */
  predicate DepthOrdered(s: seq<Path>) {
    forall i, j :: 0 <= i < j < |s| ==> |s[j]| <= |s[i]|
  }

  /** `s` holds every element of `S` exactly once and nothing else. */
  ghost predicate ListsExactly<T(!new)>(s: seq<T>, S: set<T>) {
    forall x :: multiset(s)[x] == if x in S then 1 else 0
  }

  lemma ListedOnce<T(!new)>(s: seq<T>, S: set<T>, i: nat, j: nat)
    requires ListsExactly(s, S) && i < j < |s|
    ensures s[i] != s[j]
  {
    var x := s[i];
    assert s == s[..i] + [x] + s[i + 1..];
    assert multiset(s)[x] == multiset(s[..i])[x] + 1 + multiset(s[i + 1..])[x];
    assert multiset(s[i + 1..])[x] == 0;
    assert s[i + 1..][j - i - 1] == s[j];
  }

  /** Every element of `S` sits somewhere in a listing of `S`. */
  lemma IndexIn<T(!new)>(s: seq<T>, S: set<T>, x: T) returns (j: nat)
    requires ListsExactly(s, S) && x in S
    ensures j < |s| && s[j] == x
  {
    assert multiset(s)[x] == 1;
    assert x in s;
    j :| j < |s| && s[j] == x;
  }

  /** Inserting `p` before the first entry no deeper than it: a stable insertion. */
  function InsertByDepth(p: Path, s: seq<Path>): (r: seq<Path>)
    ensures multiset(r) == multiset(s) + multiset{p}
    ensures DepthOrdered(s) ==> DepthOrdered(r)
  {
    if s == [] || |s[0]| <= |p| then [p] + s
    else
      var tail := InsertByDepth(p, s[1..]);
      assert s == [s[0]] + s[1..];
      assert DepthOrdered(s) ==> DepthOrdered([s[0]] + tail) by {
        if DepthOrdered(s) {
          HeadStaysFirst(s, tail, p);
        }
      }
      [s[0]] + tail
  }

  /** The head of a deepest-first list stays first when something shallower is inserted
      into its tail. */
  lemma HeadStaysFirst(s: seq<Path>, tail: seq<Path>, p: Path)
    requires s != [] && DepthOrdered(s) && |p| < |s[0]|
    requires DepthOrdered(tail) && multiset(tail) == multiset(s[1..]) + multiset{p}
    ensures DepthOrdered([s[0]] + tail)
  {
    forall i | 0 <= i < |tail| ensures |tail[i]| <= |s[0]| {
      assert tail[i] in multiset(tail);
      if tail[i] != p {
        assert tail[i] in multiset(s[1..]);
        var j :| 0 <= j < |s[1..]| && s[1..][j] == tail[i];
        assert s[j + 1] == tail[i];
      }
    }
  }

  /** The walk sorted deepest first; entries of equal depth keep their walk order. */
  function SortByDepth(s: seq<Path>): (r: seq<Path>)
    ensures multiset(r) == multiset(s)
    ensures DepthOrdered(r)
  {
    if s == [] then []
    else
      assert s == [s[0]] + s[1..];
      InsertByDepth(s[0], SortByDepth(s[1..]))
  }

  predicate StrictlyBelow(t: Path, q: Path) {
    |t| < |q| && q[..|t|] == t
  }

  /** What `Files.walk(raw)` visits: `raw` itself and `raw` extended by the relative path of
      every entry below the directory `raw` names. */
  function WalkSet(fs: FileSystem, raw: Path): set<Path> {
    var t := Normalize(raw);
    {raw} + set q | q in fs && StrictlyBelow(t, q) :: raw + q[|t|..]
  }

  /** A walk of `raw`, every entry once, in deepest-first order. */
  ghost predicate WalkOrder(fs: FileSystem, raw: Path, order: seq<Path>) {
    DepthOrdered(order) && ListsExactly(order, WalkSet(fs, raw))
  }

  /** The entry `t` and all entries below it. */
  function Subtree(fs: FileSystem, t: Path): set<Path> {
    set q | q in fs && IsPrefix(t, q)
  }

  /** The filesystem after a sweep and the paths whose deletion failed, in order. */
  datatype Sweep = Sweep(fs: FileSystem, failed: seq<Path>)

  /** Deleting the entries of `order` one after the other; a failure is recorded and the
      remaining entries are still attempted. */
  function DeleteAll(fs: FileSystem, order: seq<Path>, refused: set<Path>): (r: Sweep)
    requires WellFormed(fs)
    ensures WellFormed(r.fs)
    ensures forall q :: q in r.fs ==> q in fs && r.fs[q] == fs[q]
    ensures forall p :: p in r.failed ==> p in order
    decreases |order|
  {
    if order == [] then Sweep(fs, [])
    else
      var prev := DeleteAll(fs, order[..|order| - 1], refused);
      var p := order[|order| - 1];
      match Delete(prev.fs, p, refused)
      case Ok(fs') => Sweep(fs', prev.failed)
      case Err(_) => Sweep(prev.fs, prev.failed + [p])
  }

  /** A sweep one entry longer makes one more attempt, from where the shorter sweep stopped. */
  lemma SweepExtends(fs: FileSystem, order: seq<Path>, refused: set<Path>, i: nat)
    requires WellFormed(fs) && i < |order|
    ensures var prev := DeleteAll(fs, order[..i], refused);
            DeleteAll(fs, order[..i + 1], refused) ==
              match Delete(prev.fs, order[i], refused)
              case Ok(fs') => Sweep(fs', prev.failed)
              case Err(_) => Sweep(prev.fs, prev.failed + [order[i]])
  {
    assert order[..i + 1][..i] == order[..i];
  }

  /** A non-empty sweep is the sweep without its last entry, then one more attempt. */
  lemma SweepLast(fs: FileSystem, s: seq<Path>, refused: set<Path>)
    requires WellFormed(fs) && s != []
    ensures var prev := DeleteAll(fs, s[..|s| - 1], refused);
            var r := Delete(prev.fs, s[|s| - 1], refused);
            DeleteAll(fs, s, refused) ==
              if r.Ok? then Sweep(r.value, prev.failed) else Sweep(prev.fs, prev.failed + [s[|s| - 1]])
  {
  }

  /** What a sweep over `a + b` leaves is what a sweep over `b` leaves from where `a` stopped. */
  lemma {:induction false} SweepContinuesFs(fs: FileSystem, a: seq<Path>, b: seq<Path>, refused: set<Path>)
    requires WellFormed(fs)
    ensures DeleteAll(fs, a + b, refused).fs == DeleteAll(DeleteAll(fs, a, refused).fs, b, refused).fs
    decreases |b|
  {
    if b == [] {
      assert a + b == a;
    } else {
      var b' := b[..|b| - 1];
      SweepContinuesFs(fs, a, b', refused);
      assert (a + b)[..|a + b| - 1] == a + b' && (a + b)[|a + b| - 1] == b[|b| - 1];
      SweepLast(fs, a + b, refused);
      SweepLast(DeleteAll(fs, a, refused).fs, b, refused);
    }
  }

  /** What one attempt adds to the failures: the entry itself, when its deletion fails. */
  function Lost(fs: FileSystem, p: Path, refused: set<Path>): (r: seq<Path>)
    requires WellFormed(fs)
    ensures r == [] <==> Delete(fs, p, refused).Ok?
  {
    if Delete(fs, p, refused).Ok? then [] else [p]
  }

  /** A non-empty sweep fails on what the sweep without its last entry failed on, and on the
      last entry when that deletion fails. */
  lemma FailedAfterLast(fs: FileSystem, s: seq<Path>, refused: set<Path>)
    requires WellFormed(fs) && s != []
    ensures var prev := DeleteAll(fs, s[..|s| - 1], refused);
            DeleteAll(fs, s, refused).failed == prev.failed + Lost(prev.fs, s[|s| - 1], refused)
  {
  }

  /** The failures of a sweep over `a + b`, with `b` one entry longer than `b'`, are those of
      `a + b'` and what the last attempt loses from where the sweep over `b'` stopped. */
  lemma FailedOfJoin(fs: FileSystem, a: seq<Path>, b: seq<Path>, refused: set<Path>)
    requires WellFormed(fs) && b != []
    ensures var n' := DeleteAll(DeleteAll(fs, a, refused).fs, b[..|b| - 1], refused);
            DeleteAll(fs, a + b, refused).failed ==
              DeleteAll(fs, a + b[..|b| - 1], refused).failed + Lost(n'.fs, b[|b| - 1], refused)
  {
    var b' := b[..|b| - 1];
    SweepContinuesFs(fs, a, b', refused);
    assert (a + b)[..|a + b| - 1] == a + b' && (a + b)[|a + b| - 1] == b[|b| - 1];
    FailedAfterLast(fs, a + b, refused);
  }

  /** The failures of a sweep over `a + b` are those of `a`, then those of `b` from where `a`
      stopped. */
  lemma {:induction false} SweepContinuesFailed(fs: FileSystem, a: seq<Path>, b: seq<Path>, refused: set<Path>)
    requires WellFormed(fs)
    ensures var m := DeleteAll(fs, a, refused);
            DeleteAll(fs, a + b, refused).failed == m.failed + DeleteAll(m.fs, b, refused).failed
    decreases |b|
  {
    var m := DeleteAll(fs, a, refused);
    if b == [] {
      assert a + b == a;
    } else {
      var b' := b[..|b| - 1];
      var n' := DeleteAll(m.fs, b', refused);
      var lost := Lost(n'.fs, b[|b| - 1], refused);
      SweepContinuesFailed(fs, a, b', refused);
      FailedOfJoin(fs, a, b, refused);
      FailedAfterLast(m.fs, b, refused);
      assert m.failed + n'.failed + lost == m.failed + (n'.failed + lost);
    }
  }

  /** Best effort: a sweep over `a + b` is the sweep over `a` followed by a sweep over all
      of `b` from wherever `a` left the filesystem, whatever failed during `a`. */
  lemma SweepContinues(fs: FileSystem, a: seq<Path>, b: seq<Path>, refused: set<Path>)
    requires WellFormed(fs)
    ensures var m := DeleteAll(fs, a, refused);
            var n := DeleteAll(m.fs, b, refused);
            DeleteAll(fs, a + b, refused) == Sweep(n.fs, m.failed + n.failed)
  {
    SweepContinuesFs(fs, a, b, refused);
    SweepContinuesFailed(fs, a, b, refused);
  }

  /** A sweep removes nothing outside the subtree of `t` when every entry it is given names
      something inside it. */
  lemma {:induction false} SweepStaysInside(fs: FileSystem, order: seq<Path>, refused: set<Path>, t: Path)
    requires WellFormed(fs)
    requires forall i :: 0 <= i < |order| ==> IsPrefix(t, Normalize(order[i]))
    ensures forall q :: q in fs && !IsPrefix(t, q) ==> q in DeleteAll(fs, order, refused).fs
    decreases |order|
  {
    if order != [] {
      var pre := order[..|order| - 1];
      SweepStaysInside(fs, pre, refused, t);
      assert IsPrefix(t, Normalize(order[|order| - 1]));
    }
  }

  /** A sweep in which nothing failed has removed every entry it was given. */
  lemma {:induction false} SweepWithoutFailuresClears(fs: FileSystem, order: seq<Path>, refused: set<Path>)
    requires WellFormed(fs)
    requires DeleteAll(fs, order, refused).failed == []
    ensures forall i :: 0 <= i < |order| ==> Normalize(order[i]) !in DeleteAll(fs, order, refused).fs
    decreases |order|
  {
    if order != [] {
      var pre := order[..|order| - 1];
      var prev := DeleteAll(fs, pre, refused);
      assert Delete(prev.fs, order[|order| - 1], refused).Ok?;
      SweepWithoutFailuresClears(fs, pre, refused);
      forall i | 0 <= i < |order| - 1 ensures Normalize(order[i]) !in DeleteAll(fs, order, refused).fs {
        assert order[i] == pre[i];
      }
    }
  }

  /** Every entry has a plain name, as in a well-formed filesystem. */
  ghost predicate PlainKeys(fs: FileSystem) {
    forall q :: q in fs ==> Plain(q)
  }

  /** The part of an entry below `t` is a plain relative path. */
  lemma BelowIsPlain(fs: FileSystem, t: Path, q: Path)
    requires PlainKeys(fs) && q in fs && StrictlyBelow(t, q)
    ensures Plain(q[|t|..]) && t + q[|t|..] == q
  {
    var rel := q[|t|..];
    assert Plain(q);
    forall i | 0 <= i < |rel| ensures ValidName(rel[i]) {
      assert rel[i] == q[|t| + i];
    }
  }

  /** Every walk entry names the target or something below it. */
  lemma WalkInside(fs: FileSystem, raw: Path, w: Path)
    requires PlainKeys(fs) && w in WalkSet(fs, raw)
    ensures IsPrefix(Normalize(raw), Normalize(w))
  {
    var t := Normalize(raw);
    if w != raw {
      var q :| q in fs && StrictlyBelow(t, q) && w == raw + q[|t|..];
      BelowIsPlain(fs, t, q);
      NormalizeAppend(raw, q[|t|..]);
    }
  }

  lemma WalkEntryInSubtree(fs: FileSystem, raw: Path, w: Path)
    requires PlainKeys(fs) && Plain(raw) && raw in fs && w in WalkSet(fs, raw)
    ensures w in Subtree(fs, raw)
  {
    NormalizePlain(raw);
    if w == raw {
      assert IsPrefix(raw, w);
    } else {
      var q :| q in fs && StrictlyBelow(raw, q) && w == raw + q[|raw|..];
      BelowIsPlain(fs, raw, q);
      assert w == q && IsPrefix(raw, q);
    }
  }

  lemma SubtreeEntryInWalk(fs: FileSystem, raw: Path, w: Path)
    requires PlainKeys(fs) && Plain(raw) && w in Subtree(fs, raw)
    ensures w in WalkSet(fs, raw)
  {
    NormalizePlain(raw);
    if w != raw {
      assert StrictlyBelow(raw, w);
      BelowIsPlain(fs, raw, w);
    }
  }

  /** For a plain target the walk is exactly its subtree. */
  lemma WalkOfPlain(fs: FileSystem, raw: Path)
    requires PlainKeys(fs) && Plain(raw) && raw in fs
    ensures WalkSet(fs, raw) == Subtree(fs, raw)
  {
    forall w | w in WalkSet(fs, raw) ensures w in Subtree(fs, raw) {
      WalkEntryInSubtree(fs, raw, w);
    }
    forall w | w in Subtree(fs, raw) ensures w in WalkSet(fs, raw) {
      SubtreeEntryInWalk(fs, raw, w);
    }
  }

  /** The entries deleted so far. */
  function Done(order: seq<Path>, i: nat): set<Path>
    requires i <= |order|
  {
    set j | 0 <= j < i :: order[j]
  }

  /** In a deepest-first listing, an element deeper than the `k`-th one comes before it. */
  lemma DeeperDoneEarlier(order: seq<Path>, S: set<Path>, k: nat, c: Path)
    requires DepthOrdered(order) && ListsExactly(order, S) && k < |order|
    requires c in S && |order[k]| < |c|
    ensures c in Done(order, k)
  {
    var j := IndexIn(order, S, c);
    assert |order[k]| < |order[j]|;
    assert j < k;
  }

  /** In a deepest-first listing, nothing shallower than the `k`-th element comes before it. */
  lemma ShallowerNotDone(order: seq<Path>, k: nat, a: Path)
    requires DepthOrdered(order) && k < |order| && |a| < |order[k]|
    ensures a !in Done(order, k)
  {
    forall j | 0 <= j < k ensures order[j] != a {
      assert |order[k]| <= |order[j]|;
    }
  }

  /** In a listing without repetition, the `k`-th element has not come before. */
  lemma NotDoneYet(order: seq<Path>, S: set<Path>, k: nat)
    requires ListsExactly(order, S) && k < |order|
    ensures order[k] !in Done(order, k)
  {
    forall j | 0 <= j < k ensures order[j] != order[k] {
      ListedOnce(order, S, j, k);
    }
  }

  lemma WalkEntryOfPlain(fs: FileSystem, t: Path, order: seq<Path>, k: nat)
    requires WellFormed(fs) && Plain(t) && t in fs
    requires WalkOrder(fs, t, order) && k < |order|
    ensures order[k] in Subtree(fs, t) && order[k] in fs && Plain(order[k]) && Normalize(order[k]) == order[k]
  {
    assert multiset(order)[order[k]] > 0;
    WalkEntryInSubtree(fs, t, order[k]);
    NormalizePlain(order[k]);
  }

  /** When the walk reaches an entry, its ancestors are all still there. */
  lemma AncestorsRemain(fs: FileSystem, t: Path, order: seq<Path>, k: nat)
    requires WellFormed(fs) && Plain(t) && t in fs
    requires WalkOrder(fs, t, order) && k < |order|
    ensures Reachable(fs - Done(order, k), order[k])
  {
    var p := order[k];
    var cur := fs - Done(order, k);
    WalkEntryOfPlain(fs, t, order, k);
    forall m | 0 <= m < |p| ensures IsDir(cur, Normalize(p[..m])) {
      NormalizePlain(p[..m]);
      AncestorsAreDirs(fs, p, m);
      ShallowerNotDone(order, k, p[..m]);
    }
  }

  /** A child of a walk entry is deeper, so a deepest-first walk deletes it earlier. */
  lemma ChildDeletedEarlier(fs: FileSystem, t: Path, order: seq<Path>, k: nat, c: Path)
    requires WellFormed(fs) && Plain(t) && t in fs
    requires WalkOrder(fs, t, order) && k < |order|
    requires order[k] in Subtree(fs, t) && c in fs && IsChild(c, order[k])
    ensures c in Done(order, k)
  {
    var p := order[k];
    assert IsPrefix(t, p);
    assert c[..|t|] == c[..|p|][..|t|] == t;
    assert c in Subtree(fs, t);
    SubtreeEntryInWalk(fs, t, c);
    DeeperDoneEarlier(order, WalkSet(fs, t), k, c);
  }

  /** When the walk reaches an entry, everything below it has already been deleted. */
  lemma ChildrenGone(fs: FileSystem, t: Path, order: seq<Path>, k: nat)
    requires WellFormed(fs) && Plain(t) && t in fs
    requires WalkOrder(fs, t, order) && k < |order|
    ensures Children(fs - Done(order, k), order[k]) == {}
  {
    var p := order[k];
    var cur := fs - Done(order, k);
    WalkEntryOfPlain(fs, t, order, k);
    ChildrenMembers(cur, p);
    forall n ensures p + [n] !in cur {
      var c := p + [n];
      if c in fs {
        assert IsChild(c, p);
        ChildDeletedEarlier(fs, t, order, k, c);
      }
    }
  }


  /** Deepest first, a parent that is gone took its children with it earlier. */
  lemma ParentGoneAfterChild(fs: FileSystem, t: Path, order: seq<Path>, k: nat, c: Path, d: Path)
    requires WellFormed(fs) && Plain(t) && t in fs
    requires WalkOrder(fs, t, order) && k <= |order| && c in fs && IsChild(c, d)
    ensures d in Done(order, k) ==> c in Done(order, k)
  {
    if d in Done(order, k) {
      var j :| 0 <= j < k && order[j] == d;
      WalkEntryOfPlain(fs, t, order, j);
      ChildDeletedEarlier(fs, t, order, j, c);
      assert Done(order, j) <= Done(order, k);
    }
  }

  /** Deepest first, what remains after any number of deletions is still well formed. */
  lemma DoneKeepsWellFormed(fs: FileSystem, t: Path, order: seq<Path>, k: nat)
    requires WellFormed(fs) && Plain(t) && t in fs
    requires WalkOrder(fs, t, order) && k <= |order|
    ensures WellFormed(fs - Done(order, k))
  {
    var cur := fs - Done(order, k);
    forall d, n | d + [n] in cur ensures IsDir(cur, d) {
      var c := d + [n];
      assert IsDir(fs, d) && IsChild(c, d);
      ParentGoneAfterChild(fs, t, order, k, c, d);
    }
  }

  /** Deleting the `k`-th entry extends what is done by that entry. */
  lemma DoneGrows(fs: FileSystem, order: seq<Path>, k: nat)
    requires k < |order|
    ensures (fs - Done(order, k)) - {order[k]} == fs - Done(order, k + 1)
  {
    assert Done(order, k + 1) == Done(order, k) + {order[k]};
  }

  /** When a deepest-first walk reaches an entry, it is still there, reachable and childless,
      and it is not one the operating system refuses to remove. */
  lemma ReadyToDelete(fs: FileSystem, t: Path, order: seq<Path>, refused: set<Path>, k: nat)
    requires WellFormed(fs) && Plain(t) && t in fs
    requires WalkOrder(fs, t, order) && refused !! Subtree(fs, t) && k < |order|
    ensures var cur := fs - Done(order, k);
            && order[k] in cur && Plain(order[k]) && order[k] !in refused
            && Reachable(cur, order[k]) && Children(cur, order[k]) == {}
  {
    WalkEntryOfPlain(fs, t, order, k);
    NotDoneYet(order, WalkSet(fs, t), k);
    AncestorsRemain(fs, t, order, k);
    ChildrenGone(fs, t, order, k);
  }



  lemma DoneIsSubtree(fs: FileSystem, t: Path, order: seq<Path>)
    requires WellFormed(fs) && Plain(t) && t in fs && WalkOrder(fs, t, order)
    ensures Done(order, |order|) == Subtree(fs, t)
  {
    WalkOfPlain(fs, t);
    forall x | x in Subtree(fs, t) ensures x in Done(order, |order|) {
      assert multiset(order)[x] == 1;
      var j :| 0 <= j < |order| && order[j] == x;
    }
    forall x | x in Done(order, |order|) ensures x in Subtree(fs, t) {
      var j :| 0 <= j < |order| && order[j] == x;
      assert multiset(order)[x] > 0;
    }
  }


  /** `raw` names its target directly: it does not end in "." or "..", and no proper prefix
      of it leads strictly inside the target, as `x/y/../../x` does for `x` (the sweep would
      delete `x/y` before the last deletion walks through it). */
  predicate DirectPath(raw: Path) {
    && !EndsInDot(raw)
    && forall m :: 0 <= m < |raw| ==> !StrictlyBelow(Normalize(raw), Normalize(raw[..m]))
  }

  /** `raw` is walkable and names, directly, an entry other than the root. */
  predicate DirectTarget(fs: FileSystem, raw: Path) {
    Segmented(raw) && DirectPath(raw) && Reachable(fs, raw) && Normalize(raw) in fs
  }

  /** A path without "." or ".." names its target directly. */
  lemma PlainIsDirect(raw: Path)
    requires Plain(raw)
    ensures DirectPath(raw)
  {
    NormalizePlain(raw);
    if raw != [] {
      assert ValidName(raw[|raw| - 1]);
    }
    forall m | 0 <= m < |raw| ensures !StrictlyBelow(raw, Normalize(raw[..m])) {
      NormalizePlain(raw[..m]);
    }
  }

  /** `../d` typed inside a directory `d` names that directory directly. */
  lemma ParentRefIsDirect(cwd: Path)
    requires Plain(cwd) && cwd != []
    ensures var raw := cwd + ["..", cwd[|cwd| - 1]];
            Normalize(raw) == cwd && DirectPath(raw)
  {
    var n := cwd[|cwd| - 1];
    var raw := cwd + ["..", n];
    DotDotGoesUp(cwd);
    assert Parent(raw) == cwd + [".."];
    assert Parent(cwd) + [n] == cwd;
    assert ValidName(n);
    forall m | 0 <= m < |raw| ensures !StrictlyBelow(cwd, Normalize(raw[..m])) {
      if m <= |cwd| {
        assert raw[..m] == cwd[..m];
        NormalizePlain(cwd[..m]);
      } else {
        assert raw[..m] == cwd + [".."];
      }
    }
  }

  /** The entry of the target `t` that the walk entry `w` of `raw` deletes: `t` extended by
      what `w` adds to `raw`. */
  function Relocated(w: Path, raw: Path, t: Path): Path {
    if |raw| <= |w| then t + w[|raw|..] else t
  }

  /** A walk order of `raw`, entry by entry moved onto the target `t`. */
  function Relocate(order: seq<Path>, raw: Path, t: Path): seq<Path> {
    seq(|order|, i requires 0 <= i < |order| => Relocated(order[i], raw, t))
  }

  /** Moving entries that all extend `raw` onto `t` neither merges nor splits them. */
  lemma {:induction false} RelocatedCount(order: seq<Path>, raw: Path, t: Path, x: Path)
    requires forall i :: 0 <= i < |order| ==> IsPrefix(raw, order[i])
    ensures multiset(Relocate(order, raw, t))[t + x] == multiset(order)[raw + x]
    decreases |order|
  {
    if order != [] {
      var n := |order| - 1;
      var pre := order[..n];
      RelocatedCount(pre, raw, t, x);
      assert Relocate(order, raw, t) == Relocate(pre, raw, t) + [Relocated(order[n], raw, t)];
      assert order == pre + [order[n]];
      var rel := order[n][|raw|..];
      assert order[n] == raw + rel;
      assert (t + rel)[|t|..] == rel && (t + x)[|t|..] == x;
    }
  }

  /** Every entry moved onto `t` lies at or below `t`. */
  lemma RelocatedOutside(order: seq<Path>, raw: Path, t: Path, y: Path)
    requires !IsPrefix(t, y)
    ensures multiset(Relocate(order, raw, t))[y] == 0
  {
    var r := Relocate(order, raw, t);
    forall i | 0 <= i < |r| ensures r[i] != y {
      assert r[i][..|t|] == t;
    }
  }

  /** Every walk entry extends `raw` by a plain relative path and, normalised, names the
      entry of the target's subtree at that relative path. */
  lemma WalkEntryShape(fs: FileSystem, raw: Path, w: Path)
    requires PlainKeys(fs) && w in WalkSet(fs, raw)
    ensures IsPrefix(raw, w) && Plain(w[|raw|..])
    ensures Normalize(w) == Relocated(w, raw, Normalize(raw))
    ensures Normalize(raw) in fs ==> Normalize(w) in Subtree(fs, Normalize(raw))
  {
    var t := Normalize(raw);
    if w == raw {
      assert w[|raw|..] == [] && t + [] == t;
    } else {
      var q :| q in fs && StrictlyBelow(t, q) && w == raw + q[|t|..];
      BelowIsPlain(fs, t, q);
      assert w[|raw|..] == q[|t|..];
      NormalizeAppend(raw, q[|t|..]);
    }
  }

  /** Every entry of the target's subtree is reached by the walk of `raw`. */
  lemma SubtreeEntryWalked(fs: FileSystem, raw: Path, q: Path)
    requires PlainKeys(fs) && q in Subtree(fs, Normalize(raw))
    ensures raw + q[|Normalize(raw)|..] in WalkSet(fs, raw)
  {
    var t := Normalize(raw);
    if |q| == |t| {
      assert q == t && raw + q[|t|..] == raw;
    } else {
      assert StrictlyBelow(t, q);
    }
  }

  /** Each entry of a walk order of `raw` extends `raw` by a plain relative path, and is
      moved onto the normalised target to what it names. */
  lemma RelocatedEntries(fs: FileSystem, raw: Path, order: seq<Path>)
    requires PlainKeys(fs) && WalkOrder(fs, raw, order)
    ensures forall i :: 0 <= i < |order| ==>
              && IsPrefix(raw, order[i]) && Plain(order[i][|raw|..])
              && Normalize(order[i]) == Relocate(order, raw, Normalize(raw))[i]
  {
    forall i | 0 <= i < |order|
      ensures IsPrefix(raw, order[i]) && Plain(order[i][|raw|..])
      ensures Normalize(order[i]) == Relocate(order, raw, Normalize(raw))[i]
    {
      assert multiset(order)[order[i]] > 0;
      WalkEntryShape(fs, raw, order[i]);
    }
  }

  /** Moving entries that extend `raw` keeps them deepest first. */
  lemma RelocatedDepthOrdered(order: seq<Path>, raw: Path, t: Path)
    requires DepthOrdered(order) && forall i :: 0 <= i < |order| ==> IsPrefix(raw, order[i])
    ensures DepthOrdered(Relocate(order, raw, t))
  {
    var r := Relocate(order, raw, t);
    forall i, j | 0 <= i < j < |r| ensures |r[j]| <= |r[i]| {
      assert |order[j]| <= |order[i]|;
    }
  }

  /** Moved onto the normalised target, a listing of the walk of `raw` lists the target's
      subtree, every entry once. */
  lemma RelocatedListsSubtree(fs: FileSystem, raw: Path, order: seq<Path>)
    requires PlainKeys(fs) && Normalize(raw) in fs && ListsExactly(order, WalkSet(fs, raw))
    requires forall i :: 0 <= i < |order| ==> IsPrefix(raw, order[i])
    ensures ListsExactly(Relocate(order, raw, Normalize(raw)), Subtree(fs, Normalize(raw)))
  {
    var t := Normalize(raw);
    var r := Relocate(order, raw, t);
    forall y ensures multiset(r)[y] == if y in Subtree(fs, t) then 1 else 0 {
      if IsPrefix(t, y) {
        var x := y[|t|..];
        assert y == t + x;
        RelocatedCount(order, raw, t, x);
        assert y in Subtree(fs, t) ==> raw + x in WalkSet(fs, raw) by {
          if y in Subtree(fs, t) {
            SubtreeEntryWalked(fs, raw, y);
          }
        }
        assert raw + x in WalkSet(fs, raw) ==> y in Subtree(fs, t) by {
          if raw + x in WalkSet(fs, raw) {
            WalkEntryShape(fs, raw, raw + x);
            assert (raw + x)[|raw|..] == x;
          }
        }
      } else {
        RelocatedOutside(order, raw, t, y);
      }
    }
  }

  /** Moved onto the normalised target, a walk order of `raw` is a walk order of the target,
      and each entry is moved to what it names. */
  lemma RelocatedWalk(fs: FileSystem, raw: Path, order: seq<Path>)
    requires WellFormed(fs) && Segmented(raw) && Normalize(raw) in fs && WalkOrder(fs, raw, order)
    ensures forall i :: 0 <= i < |order| ==>
              && IsPrefix(raw, order[i]) && Plain(order[i][|raw|..])
              && Normalize(order[i]) == Relocate(order, raw, Normalize(raw))[i]
    ensures WalkOrder(fs, Normalize(raw), Relocate(order, raw, Normalize(raw)))
  {
    var t := Normalize(raw);
    RelocatedEntries(fs, raw, order);
    RelocatedDepthOrdered(order, raw, t);
    RelocatedListsSubtree(fs, raw, order);
    WalkOfPlain(fs, t);
  }

  /** In a walk of a plain target, everything deleted before the `k`-th step lies strictly
      below the target, which comes last. */
  lemma DoneStrictlyBelow(fs: FileSystem, t: Path, order: seq<Path>, k: nat)
    requires WellFormed(fs) && Plain(t) && t in fs && WalkOrder(fs, t, order) && k < |order|
    ensures forall d :: d in Done(order, k) ==> StrictlyBelow(t, d)
  {
    assert t !in Done(order, k) by {
      WalkEntryOfPlain(fs, t, order, k);
      if order[k] == t {
        NotDoneYet(order, WalkSet(fs, t), k);
      } else {
        ShallowerNotDone(order, k, t);
      }
    }
    forall d | d in Done(order, k) ensures StrictlyBelow(t, d) {
      var j :| 0 <= j < k && order[j] == d;
      WalkEntryOfPlain(fs, t, order, j);
      assert d != t && d[..|t|] == t;
      assert d[..|d|] == d;
    }
  }

  /** A walk entry does not end in "." or "..": it is `raw` itself or ends in a name. */
  lemma EntryNotDot(raw: Path, w: Path)
    requires DirectPath(raw) && IsPrefix(raw, w) && Plain(w[|raw|..])
    ensures !EndsInDot(w)
  {
    if |w| == |raw| {
      assert w == raw;
    } else {
      assert w[|w| - 1] == w[|raw|..][|w| - |raw| - 1];
    }
  }

  /** The prefixes of a walk entry that lie inside `raw` still lead to directories when its
      turn comes: outside the subtree nothing is deleted, and the target goes last. */
  lemma PrefixStillDir(fs: FileSystem, raw: Path, done: seq<Path>, k: nat, m: nat)
    requires WellFormed(fs) && DirectTarget(fs, raw) && m < |raw|
    requires WalkOrder(fs, Normalize(raw), done) && k < |done|
    ensures IsDir(fs - Done(done, k), Normalize(raw[..m]))
  {
    assert IsDir(fs, Normalize(raw[..m]));
    DoneStrictlyBelow(fs, Normalize(raw), done, k);
  }

  /** While the target's subtree is being swept, `raw` itself can still be walked. */
  lemma TargetStillReachable(fs: FileSystem, raw: Path, done: seq<Path>, k: nat)
    requires WellFormed(fs) && DirectTarget(fs, raw) && WalkOrder(fs, Normalize(raw), done) && k < |done|
    ensures Reachable(fs - Done(done, k), raw)
  {
    forall m | 0 <= m < |raw| ensures IsDir(fs - Done(done, k), Normalize(raw[..m])) {
      PrefixStillDir(fs, raw, done, k, m);
    }
  }

  lemma ShortPrefixDir(cur: FileSystem, raw: Path, w: Path, m: nat)
    requires IsPrefix(raw, w) && m < |raw| && IsDir(cur, Normalize(raw[..m]))
    ensures IsDir(cur, Normalize(w[..m]))
  {
    assert w[..m] == raw[..m];
  }

  /** A prefix of `w` at least as long as its prefix `raw` is `raw` and a prefix of the rest. */
  lemma SliceBeyond(raw: Path, w: Path, m: nat)
    requires IsPrefix(raw, w) && |raw| <= m <= |w|
    ensures w[..m] == raw + w[|raw|..][..m - |raw|]
  {
    var rhs := raw + w[|raw|..][..m - |raw|];
    assert |rhs| == m;
    forall i | 0 <= i < m ensures w[..m][i] == rhs[i] {
      if i < |raw| {
        assert rhs[i] == raw[i] == w[i];
      } else {
        assert rhs[i] == w[|raw|..][i - |raw|] == w[i];
      }
    }
  }

  lemma LongPrefixDir(cur: FileSystem, raw: Path, w: Path, m: nat)
    requires IsPrefix(raw, w) && |raw| <= m < |w| && Plain(w[|raw|..]) && Plain(Normalize(raw))
    requires Reachable(cur, Normalize(raw) + w[|raw|..])
    ensures IsDir(cur, Normalize(w[..m]))
  {
    SliceBeyond(raw, w, m);
    ExtensionStillDir(cur, raw, w[|raw|..], m - |raw|);
  }

  /** `raw` followed by plain names can be walked when `raw` can and the entry those names
      lead to below the target can. */
  lemma ExtendReachable(cur: FileSystem, raw: Path, w: Path)
    requires IsPrefix(raw, w) && Plain(w[|raw|..]) && Plain(Normalize(raw))
    requires Reachable(cur, raw) && Reachable(cur, Normalize(raw) + w[|raw|..])
    ensures Reachable(cur, w)
  {
    forall m | 0 <= m < |w| ensures IsDir(cur, Normalize(w[..m])) {
      if m < |raw| {
        ShortPrefixDir(cur, raw, w, m);
      } else {
        LongPrefixDir(cur, raw, w, m);
      }
    }
  }

  /** When the walk reaches an entry, the path that names it can still be walked. */
  lemma EntryReachable(fs: FileSystem, raw: Path, order: seq<Path>, k: nat)
    requires WellFormed(fs) && DirectTarget(fs, raw) && WalkOrder(fs, raw, order) && k < |order|
    ensures Reachable(fs - Done(Relocate(order, raw, Normalize(raw)), k), order[k])
  {
    var t := Normalize(raw);
    var done := Relocate(order, raw, t);
    var cur := fs - Done(done, k);
    var w := order[k];
    assert IsPrefix(raw, w) && Plain(w[|raw|..]) && WalkOrder(fs, t, done) by {
      RelocatedWalk(fs, raw, order);
    }
    assert done[k] == t + w[|raw|..];
    assert Reachable(cur, raw) by { TargetStillReachable(fs, raw, done, k); }
    assert Reachable(cur, t + w[|raw|..]) by { AncestorsRemain(fs, t, done, k); }
    ExtendReachable(cur, raw, w);
  }

  /** The prefixes of a walk entry beyond `raw` normalise to ancestors of the entry it names. */
  lemma ExtensionStillDir(cur: FileSystem, raw: Path, rel: Path, j: nat)
    requires Plain(rel) && j < |rel| && Plain(Normalize(raw)) && Reachable(cur, Normalize(raw) + rel)
    ensures IsDir(cur, Normalize(raw + rel[..j]))
  {
    var t := Normalize(raw);
    var q := t + rel;
    assert Plain(rel[..j]);
    NormalizeAppend(raw, rel[..j]);
    assert q[..|t| + j] == t + rel[..j];
    NormalizePlain(q[..|t| + j]);
    assert IsDir(cur, Normalize(q[..|t| + j]));
  }

  /** Deepest first and with nothing refused, each deletion of the walk of a directly named
      target succeeds and removes the entry its path names. */
  lemma StepSucceeds(fs: FileSystem, raw: Path, order: seq<Path>, refused: set<Path>, k: nat)
    requires WellFormed(fs) && DirectTarget(fs, raw) && refused !! Subtree(fs, Normalize(raw))
    requires WalkOrder(fs, raw, order) && k < |order|
    ensures var done := Relocate(order, raw, Normalize(raw));
            && WellFormed(fs - Done(done, k))
            && Delete(fs - Done(done, k), order[k], refused) == Ok(fs - Done(done, k + 1))
  {
    var t := Normalize(raw);
    var done := Relocate(order, raw, t);
    RelocatedWalk(fs, raw, order);
    DoneKeepsWellFormed(fs, t, done, k);
    ReadyToDelete(fs, t, done, refused, k);
    EntryNotDot(raw, order[k]);
    EntryReachable(fs, raw, order, k);
    DeleteLeaf(fs - Done(done, k), order[k], refused);
    DoneGrows(fs, done, k);
  }

  /** One more successful deletion extends a sweep that has failed nowhere so far. */
  lemma PrefixStep(fs: FileSystem, raw: Path, order: seq<Path>, refused: set<Path>, k: nat)
    requires WellFormed(fs) && DirectTarget(fs, raw) && refused !! Subtree(fs, Normalize(raw))
    requires WalkOrder(fs, raw, order) && k < |order|
    requires DeleteAll(fs, order[..k], refused) == Sweep(fs - Done(Relocate(order, raw, Normalize(raw)), k), [])
    ensures DeleteAll(fs, order[..k + 1], refused) == Sweep(fs - Done(Relocate(order, raw, Normalize(raw)), k + 1), [])
  {
    StepSucceeds(fs, raw, order, refused, k);
    SweepExtends(fs, order, refused, k);
  }

  /** After `i` steps of the sweep, exactly the entries named by the first `i` walk entries
      are gone and nothing has failed. */
  lemma {:induction false} SweepPrefixSucceeds(fs: FileSystem, raw: Path, order: seq<Path>, refused: set<Path>, i: nat)
    requires WellFormed(fs) && DirectTarget(fs, raw) && refused !! Subtree(fs, Normalize(raw))
    requires WalkOrder(fs, raw, order) && i <= |order|
    ensures DeleteAll(fs, order[..i], refused) == Sweep(fs - Done(Relocate(order, raw, Normalize(raw)), i), [])
    decreases i
  {
    if i == 0 {
      assert order[..0] == [];
      assert fs - Done(Relocate(order, raw, Normalize(raw)), 0) == fs;
    } else {
      SweepPrefixSucceeds(fs, raw, order, refused, i - 1);
      PrefixStep(fs, raw, order, refused, i - 1);
    }
  }

  /** When nothing is refused, sweeping the walk of a directly named target removes exactly
      its subtree (the target included) and reports no failure. */
  lemma SweepRemovesSubtree(fs: FileSystem, raw: Path, order: seq<Path>, refused: set<Path>)
    requires WellFormed(fs) && DirectTarget(fs, raw) && refused !! Subtree(fs, Normalize(raw))
    requires WalkOrder(fs, raw, order)
    ensures DeleteAll(fs, order, refused) == Sweep(fs - Subtree(fs, Normalize(raw)), [])
  {
    SweepPrefixSucceeds(fs, raw, order, refused, |order|);
    assert order[..|order|] == order;
    RelocatedWalk(fs, raw, order);
    DoneIsSubtree(fs, Normalize(raw), Relocate(order, raw, Normalize(raw)));
  }

  /** The filesystem `fs1` is what a deepest-first sweep of the walk of `raw` leaves of `fs0`. */
  ghost predicate Swept(fs0: FileSystem, fs1: FileSystem, raw: Path, refused: set<Path>)
    requires WellFormed(fs0)
  {
    exists order :: WalkOrder(fs0, raw, order) && DeleteAll(fs0, order, refused).fs == fs1
  }

  /** Sorting any listing of the walk deepest first gives a walk order. */
  lemma SortedWalk(fs: FileSystem, raw: Path, walk: seq<Path>)
    requires ListsExactly(walk, WalkSet(fs, raw))
    ensures WalkOrder(fs, raw, SortByDepth(walk))
  {
  }

  /** Sweeping in a walk order is a recursive delete. */
  lemma SweptBy(fs: FileSystem, raw: Path, order: seq<Path>, refused: set<Path>)
    requires WellFormed(fs) && WalkOrder(fs, raw, order)
    ensures Swept(fs, DeleteAll(fs, order, refused).fs, raw, refused)
  {
  }

  /** A recursive delete only removes entries, and none outside the target's subtree. */
  lemma SweptStaysInside(fs0: FileSystem, fs1: FileSystem, raw: Path, refused: set<Path>)
    requires WellFormed(fs0) && Swept(fs0, fs1, raw, refused)
    ensures WellFormed(fs1)
    ensures forall q :: q in fs1 ==> q in fs0 && fs1[q] == fs0[q]
    ensures forall q :: q in fs0 && !IsPrefix(Normalize(raw), q) ==> q in fs1
  {
    var order :| WalkOrder(fs0, raw, order) && DeleteAll(fs0, order, refused).fs == fs1;
    forall i | 0 <= i < |order| ensures IsPrefix(Normalize(raw), Normalize(order[i])) {
      assert multiset(order)[order[i]] > 0;
      WalkInside(fs0, raw, order[i]);
    }
    SweepStaysInside(fs0, order, refused, Normalize(raw));
  }

  /** A recursive delete of a directly named target none of whose entries is refused
      removes its whole subtree and nothing else, whatever the walk order. */
  lemma SweptRemovesSubtree(fs0: FileSystem, fs1: FileSystem, raw: Path, refused: set<Path>)
    requires WellFormed(fs0) && DirectTarget(fs0, raw) && refused !! Subtree(fs0, Normalize(raw))
    requires Swept(fs0, fs1, raw, refused)
    ensures fs1 == fs0 - Subtree(fs0, Normalize(raw))
  {
    var order :| WalkOrder(fs0, raw, order) && DeleteAll(fs0, order, refused).fs == fs1;
    SweepRemovesSubtree(fs0, raw, order, refused);
  }
}

/** The global-variable rewriter of `pglite-buildtools/src/rewrite_globals.rs`:
    it finds every global and static-local variable declaration in the
    engine's C sources, decides where `__thread ` goes in front of it,
    gathers the insertions of all files (dropping duplicates, refusing
    conflicts) and splices them into each file. Sources and rewrite texts
    are UTF-8 bytes; offsets are byte offsets. */
module RewriteGlobals {
  import opened Common
  import Utf8

  /** A path on disk (`PathBuf`). */
  type Path = Bytes

  /** Replace `length` bytes at `offset` by `text`. */
  datatype Rewrite = Rewrite(offset: nat, length: nat, text: Bytes)

  datatype FileRewrite = FileRewrite(path: Path, rewrite: Rewrite)

  // ---------------------------------------------------------------------
  // apply

  /** `str::is_char_boundary`: the start or end of the string, or a byte
      that is not a UTF-8 continuation byte. */
  predicate IsCharBoundary(s: Bytes, i: nat) {
    i == 0 || i == |s| || (i < |s| && !(0x80 <= s[i] <= 0xBF))
  }

  /** `&s[lo..hi]` on a `str` does not panic. */
  predicate SliceOk(s: Bytes, lo: nat, hi: nat) {
    lo <= hi <= |s| && IsCharBoundary(s, lo) && IsCharBoundary(s, hi)
  }

  /** Every slice `apply` takes from `cursor` on is legal: each rewrite
      starts at or after the end of the one before, and the cuts fall on
      character boundaries inside the source. */
  predicate FitsFrom(source: Bytes, cursor: nat, rewrites: seq<Rewrite>)
    decreases |rewrites|
  {
    if rewrites == [] then SliceOk(source, cursor, |source|)
    else
      && SliceOk(source, cursor, rewrites[0].offset)
      && FitsFrom(source, rewrites[0].offset + rewrites[0].length, rewrites[1..])
  }

  /** The spliced text: `source[cursor..o1] + t1 + source[o1+l1..o2] + t2
      + ... + source[on+ln..]`. */
  function SpliceFrom(source: Bytes, cursor: nat, rewrites: seq<Rewrite>): Bytes
    requires FitsFrom(source, cursor, rewrites)
    decreases |rewrites|
  {
    if rewrites == [] then source[cursor..]
    else
      var rw := rewrites[0];
      source[cursor..rw.offset] + rw.text + SpliceFrom(source, rw.offset + rw.length, rewrites[1..])
  }

  /** `apply`. A slice that would panic ends the run with None. */
  method Apply(source: Bytes, rewrites: seq<Rewrite>) returns (out: Option<Bytes>)
    ensures out.Some? <==> FitsFrom(source, 0, rewrites)
    ensures out.Some? ==> out.value == SpliceFrom(source, 0, rewrites)
    ensures rewrites == [] ==> out == Some(source)
  {
    var acc: Bytes := [];
    var cursor: nat := 0;
    var i := 0;
    while i < |rewrites|
      invariant 0 <= i <= |rewrites|
      invariant ApplyInvariant(source, rewrites, i, cursor, acc)
    {
      var rw := rewrites[i];
      ApplyStep(source, rewrites, i, cursor, acc);
      if !SliceOk(source, cursor, rw.offset) {
        return None;
      }
      acc := acc + source[cursor..rw.offset];
      cursor := rw.offset + rw.length;
      acc := acc + rw.text;
      i := i + 1;
    }
    ApplyEnd(source, rewrites, cursor, acc);
    if !SliceOk(source, cursor, |source|) {
      return None;
    }
    out := Some(acc + source[cursor..]);
  }

  /** The loop invariant of `apply`: the rest of the run from `cursor` fits
      exactly when the whole run does, and then `acc` followed by the rest
      of the splice is the whole splice. */
  predicate ApplyInvariant(source: Bytes, rewrites: seq<Rewrite>, i: nat, cursor: nat, acc: Bytes)
    requires i <= |rewrites|
  {
    && (FitsFrom(source, 0, rewrites) <==> FitsFrom(source, cursor, rewrites[i..]))
    && (FitsFrom(source, cursor, rewrites[i..]) ==>
          acc + SpliceFrom(source, cursor, rewrites[i..]) == SpliceFrom(source, 0, rewrites))
  }

  lemma ApplyStep(source: Bytes, rewrites: seq<Rewrite>, i: nat, cursor: nat, acc: Bytes)
    requires i < |rewrites| && ApplyInvariant(source, rewrites, i, cursor, acc)
    ensures !SliceOk(source, cursor, rewrites[i].offset) ==> !FitsFrom(source, 0, rewrites)
    ensures SliceOk(source, cursor, rewrites[i].offset) ==>
              ApplyInvariant(source, rewrites, i + 1, rewrites[i].offset + rewrites[i].length,
                             acc + source[cursor..rewrites[i].offset] + rewrites[i].text)
  {
    var rw := rewrites[i];
    var next := rw.offset + rw.length;
    assert rewrites[i..][0] == rw && rewrites[i..][1..] == rewrites[i + 1..];
    SpliceStep(source, cursor, rewrites[i..]);
    if SliceOk(source, cursor, rw.offset) && FitsFrom(source, next, rewrites[i + 1..]) {
      Regroup(acc, source[cursor..rw.offset], rw.text, SpliceFrom(source, next, rewrites[i + 1..]));
    }
  }

  lemma Regroup(a: Bytes, b: Bytes, c: Bytes, d: Bytes)
    ensures a + b + c + d == a + (b + c + d)
  {
  }

  lemma ApplyEnd(source: Bytes, rewrites: seq<Rewrite>, cursor: nat, acc: Bytes)
    requires ApplyInvariant(source, rewrites, |rewrites|, cursor, acc)
    ensures FitsFrom(source, 0, rewrites) <==> SliceOk(source, cursor, |source|)
    ensures SliceOk(source, cursor, |source|) ==> acc + source[cursor..] == SpliceFrom(source, 0, rewrites)
    ensures rewrites == [] ==> SliceOk(source, cursor, |source|) && acc + source[cursor..] == source
  {
    assert rewrites[|rewrites|..] == [];
    if SliceOk(source, cursor, |source|) {
      assert FitsFrom(source, cursor, []);
      assert SpliceFrom(source, cursor, []) == source[cursor..];
    }
    if rewrites == [] {
      assert FitsFrom(source, 0, []) && SpliceFrom(source, 0, []) == source;
    }
  }

  /** One rewrite of `apply`'s loop: its slice, its text, then the rest
      from the end of its range. */
  lemma SpliceStep(source: Bytes, cursor: nat, rewrites: seq<Rewrite>)
    requires rewrites != []
    ensures FitsFrom(source, cursor, rewrites) <==>
              SliceOk(source, cursor, rewrites[0].offset)
              && FitsFrom(source, rewrites[0].offset + rewrites[0].length, rewrites[1..])
    ensures FitsFrom(source, cursor, rewrites) ==>
              SpliceFrom(source, cursor, rewrites)
              == source[cursor..rewrites[0].offset] + rewrites[0].text
                 + SpliceFrom(source, rewrites[0].offset + rewrites[0].length, rewrites[1..])
  {
  }

  /** What a list of rewrites adds to the length: `Σ (|text_i| - length_i)`. */
  function Growth(rewrites: seq<Rewrite>): int {
    if rewrites == [] then 0
    else |rewrites[0].text| - rewrites[0].length + Growth(rewrites[1..])
  }

  /** The spliced text is as long as the rest of the source plus what the
      rewrites add. */
  lemma {:induction false} SpliceLength(source: Bytes, cursor: nat, rewrites: seq<Rewrite>)
    requires FitsFrom(source, cursor, rewrites)
    ensures |SpliceFrom(source, cursor, rewrites)| == |source| - cursor + Growth(rewrites)
    decreases |rewrites|
  {
    if rewrites != [] {
      var rw := rewrites[0];
      SpliceLength(source, rw.offset + rw.length, rewrites[1..]);
    }
  }

  /** A rewrite whose text is the bytes it replaces. */
  predicate OwnText(source: Bytes, rw: Rewrite) {
    rw.offset + rw.length <= |source| && rw.text == source[rw.offset..rw.offset + rw.length]
  }

  /** Rewriting every range with the bytes already there changes nothing. */
  lemma {:induction false} SpliceOwnText(source: Bytes, cursor: nat, rewrites: seq<Rewrite>)
    requires FitsFrom(source, cursor, rewrites)
    requires forall k | 0 <= k < |rewrites| :: OwnText(source, rewrites[k])
    ensures SpliceFrom(source, cursor, rewrites) == source[cursor..]
    decreases |rewrites|
  {
    if rewrites != [] {
      var rw, rest := rewrites[0], rewrites[1..];
      var next := rw.offset + rw.length;
      SpliceStep(source, cursor, rewrites);
      assert OwnText(source, rewrites[0]);
      assert forall k | 0 <= k < |rest| :: rest[k] == rewrites[k + 1];
      SpliceOwnText(source, next, rest);
      SlicesJoin(source, cursor, rw.offset, next);
      SuffixJoin(source, cursor, next);
    } else {
      assert SpliceFrom(source, cursor, rewrites) == source[cursor..];
    }
  }

  lemma SlicesJoin(s: Bytes, i: nat, j: nat, k: nat)
    requires i <= j <= k <= |s|
    ensures s[i..j] + s[j..k] == s[i..k]
  {
  }

  lemma SuffixJoin(s: Bytes, i: nat, j: nat)
    requires i <= j <= |s|
    ensures s[i..j] + s[j..] == s[i..]
  {
  }

  /** Sorted and non-overlapping: each rewrite ends at or before the next
      one starts. */
  predicate NonOverlapping(rewrites: seq<Rewrite>) {
    forall k | 0 <= k < |rewrites| - 1 :: rewrites[k].offset + rewrites[k].length <= rewrites[k + 1].offset
  }

  /** Every rewrite's range lies in the source and is cut at character
      boundaries. */
  predicate InBounds(source: Bytes, rewrites: seq<Rewrite>) {
    forall k | 0 <= k < |rewrites| ::
      && rewrites[k].offset + rewrites[k].length <= |source|
      && IsCharBoundary(source, rewrites[k].offset)
      && IsCharBoundary(source, rewrites[k].offset + rewrites[k].length)
  }

  /** `apply` does not panic exactly when the rewrites are sorted, do not
      overlap, and cut the source at character boundaries. */
  lemma {:induction false} FitsIffOrdered(source: Bytes, rewrites: seq<Rewrite>)
    ensures FitsFrom(source, 0, rewrites) <==> NonOverlapping(rewrites) && InBounds(source, rewrites)
  {
    FitsFromIff(source, 0, rewrites);
  }

  lemma {:induction false} FitsFromIff(source: Bytes, cursor: nat, rewrites: seq<Rewrite>)
    requires IsCharBoundary(source, cursor) && cursor <= |source|
    ensures FitsFrom(source, cursor, rewrites) <==>
              && NonOverlapping(rewrites) && InBounds(source, rewrites)
              && (rewrites != [] ==> cursor <= rewrites[0].offset)
    decreases |rewrites|
  {
    if rewrites != [] {
      var rw := rewrites[0];
      var rest := rewrites[1..];
      var next := rw.offset + rw.length;
      if FitsFrom(source, cursor, rewrites) {
        FitsFromBounds(source, next, rest);
        FitsFromIff(source, next, rest);
        forall k | 0 <= k < |rewrites| - 1
          ensures rewrites[k].offset + rewrites[k].length <= rewrites[k + 1].offset
        {
          if k > 0 { assert rest[k - 1] == rewrites[k] && rest[k] == rewrites[k + 1]; }
        }
        forall k | 0 <= k < |rewrites|
          ensures rewrites[k].offset + rewrites[k].length <= |source|
          ensures IsCharBoundary(source, rewrites[k].offset)
          ensures IsCharBoundary(source, rewrites[k].offset + rewrites[k].length)
        {
          if k > 0 { assert rest[k - 1] == rewrites[k]; }
        }
      } else if NonOverlapping(rewrites) && InBounds(source, rewrites) && cursor <= rw.offset {
        assert next <= |source| && IsCharBoundary(source, next);
        forall k | 0 <= k < |rest| - 1 ensures rest[k].offset + rest[k].length <= rest[k + 1].offset {
          assert rest[k] == rewrites[k + 1] && rest[k + 1] == rewrites[k + 2];
        }
        forall k | 0 <= k < |rest|
          ensures rest[k].offset + rest[k].length <= |source|
          ensures IsCharBoundary(source, rest[k].offset)
          ensures IsCharBoundary(source, rest[k].offset + rest[k].length)
        {
          assert rest[k] == rewrites[k + 1];
        }
        FitsFromIff(source, next, rest);
        assert false;
      }
    }
  }

  /** A cursor from which `apply` can run lies on a boundary in the source. */
  lemma FitsFromBounds(source: Bytes, cursor: nat, rewrites: seq<Rewrite>)
    requires FitsFrom(source, cursor, rewrites)
    ensures cursor <= |source| && IsCharBoundary(source, cursor)
  {
  }

  // ---------------------------------------------------------------------
  // condense_rewrites

  /** The part of a rewrite that two rewrites at one offset must share. */
  datatype Subst = Subst(length: nat, text: Bytes)

  function SubstOf(rw: Rewrite): Subst {
    Subst(rw.length, rw.text)
  }

  /** The error `condense_rewrites` returns. */
  datatype CondenseError = ConflictingSubstitutions

  /** `HashMap<PathBuf, BTreeMap<usize, HashSet<Subst>>>`. */
  type Grouped = map<Path, map<nat, set<Subst>>>

  /** The result: each path's rewrites, in the order they are to be applied. */
  type Condensed = map<Path, seq<Rewrite>>

  /** One turn of the first loop: `entry(path).or_default()
      .entry(offset).or_default().insert(subst)`. */
  function AddRewrite(g: Grouped, fr: FileRewrite): Grouped {
    var byOffset := if fr.path in g then g[fr.path] else map[];
    var o := fr.rewrite.offset;
    var substs := if o in byOffset then byOffset[o] else {};
    g[fr.path := byOffset[o := substs + {SubstOf(fr.rewrite)}]]
  }

  /** What the first loop has built after the given rewrites. */
  function Group(frs: seq<FileRewrite>): Grouped
    decreases |frs|
  {
    if frs == [] then map[] else AddRewrite(Group(frs[..|frs| - 1]), frs[|frs| - 1])
  }

  ghost predicate Holds(g: Grouped, p: Path, o: nat, s: Subst) {
    p in g && o in g[p] && s in g[p][o]
  }

  ghost predicate Requested(frs: seq<FileRewrite>, p: Path, o: nat, s: Subst) {
    exists i :: 0 <= i < |frs| && frs[i].path == p && frs[i].rewrite.offset == o && SubstOf(frs[i].rewrite) == s
  }

  /** No path without offsets and no offset without substitutions. */
  ghost predicate NoEmpty(g: Grouped) {
    forall p | p in g :: g[p] != map[] && forall o | o in g[p] :: g[p][o] != {}
  }

  /** The grouping holds exactly the substitutions asked for, each under its
      path and offset. */
  lemma {:induction false} GroupHolds(frs: seq<FileRewrite>)
    ensures NoEmpty(Group(frs))
    ensures forall p, o, s :: Holds(Group(frs), p, o, s) <==> Requested(frs, p, o, s)
  {
    GroupNoEmpty(frs);
    forall p, o, s ensures Holds(Group(frs), p, o, s) <==> Requested(frs, p, o, s) {
      if Holds(Group(frs), p, o, s) {
        GroupSound(frs, p, o, s);
      }
      if Requested(frs, p, o, s) {
        var i :| 0 <= i < |frs| && frs[i].path == p && frs[i].rewrite.offset == o && SubstOf(frs[i].rewrite) == s;
        GroupComplete(frs, i);
      }
    }
  }

  lemma {:induction false} GroupNoEmpty(frs: seq<FileRewrite>)
    ensures NoEmpty(Group(frs))
    decreases |frs|
  {
    if frs != [] {
      GroupNoEmpty(frs[..|frs| - 1]);
    }
  }

  lemma {:induction false} GroupSound(frs: seq<FileRewrite>, p: Path, o: nat, s: Subst)
    requires Holds(Group(frs), p, o, s)
    ensures Requested(frs, p, o, s)
    decreases |frs|
  {
    var n := |frs|;
    var init, last := frs[..n - 1], frs[n - 1];
    if p == last.path && o == last.rewrite.offset && s == SubstOf(last.rewrite) {
      assert frs[n - 1] == last;
    } else {
      GroupSound(init, p, o, s);
      var i :| 0 <= i < |init| && init[i].path == p && init[i].rewrite.offset == o && SubstOf(init[i].rewrite) == s;
      assert frs[i] == init[i];
    }
  }

  lemma {:induction false} GroupComplete(frs: seq<FileRewrite>, i: nat)
    requires i < |frs|
    ensures Holds(Group(frs), frs[i].path, frs[i].rewrite.offset, SubstOf(frs[i].rewrite))
    decreases |frs|
  {
    var n := |frs|;
    if i < n - 1 {
      var init := frs[..n - 1];
      assert init[i] == frs[i];
      GroupComplete(init, i);
    }
  }

  lemma {:induction false} LeastOf(ks: set<nat>) returns (m: nat)
    requires ks != {}
    ensures m in ks && forall k | k in ks :: m <= k
    decreases ks
  {
    var x :| x in ks;
    var rest := ks - {x};
    if rest == {} {
      m := x;
      forall k | k in ks ensures m <= k {
        assert k !in rest;
      }
    } else {
      var r := LeastOf(rest);
      m := if x < r then x else r;
      forall k | k in ks ensures m <= k {
        if k != x { assert k in rest; }
      }
    }
  }

  lemma MinExists(ks: set<nat>)
    requires ks != {}
    ensures exists m :: m in ks && forall k | k in ks :: m <= k
  {
    var m := LeastOf(ks);
  }

  /** The smallest key. */
  function Least(ks: set<nat>): (m: nat)
    requires ks != {}
    ensures m in ks && forall k | k in ks :: m <= k
  {
    MinExists(ks);
    var m :| m in ks && forall k | k in ks :: m <= k; m
  }

  /** The keys of a `BTreeMap` in the order it iterates them. */
  function SortedKeys(ks: set<nat>): (r: seq<nat>)
    ensures forall k | 0 <= k < |r| :: r[k] in ks
    decreases |ks|
  {
    if ks == {} then []
    else
      var m := Least(ks);
      [m] + SortedKeys(ks - {m})
  }

  /** Every key is visited, in strictly increasing order. */
  lemma {:induction false} SortedKeysOrder(ks: set<nat>)
    ensures forall k | k in ks :: k in SortedKeys(ks)
    ensures forall a, b | 0 <= a < b < |SortedKeys(ks)| :: SortedKeys(ks)[a] < SortedKeys(ks)[b]
  {
    SortedKeysComplete(ks);
    SortedKeysIncreasing(ks);
  }

  lemma {:induction false} SortedKeysComplete(ks: set<nat>)
    ensures forall k | k in ks :: k in SortedKeys(ks)
    decreases |ks|
  {
    if ks != {} {
      var m := Least(ks);
      var rest := SortedKeys(ks - {m});
      SortedKeysComplete(ks - {m});
      var r := SortedKeys(ks);
      assert r == [m] + rest;
      forall k | k in ks ensures k in r {
        if k != m {
          assert k in ks - {m} && k in rest;
        }
      }
    }
  }

  lemma {:induction false} SortedKeysIncreasing(ks: set<nat>)
    ensures forall a, b | 0 <= a < b < |SortedKeys(ks)| :: SortedKeys(ks)[a] < SortedKeys(ks)[b]
    decreases |ks|
  {
    if ks != {} {
      var m := Least(ks);
      var rest := SortedKeys(ks - {m});
      SortedKeysIncreasing(ks - {m});
      var r := SortedKeys(ks);
      assert r == [m] + rest;
      forall a, b | 0 <= a < b < |r| ensures r[a] < r[b] {
        assert r[b] == rest[b - 1] && rest[b - 1] in ks - {m};
        if a > 0 {
          assert r[a] == rest[a - 1];
        }
      }
    }
  }

  /** The one element of a singleton. */
  ghost function Only(ss: set<Subst>): Subst
    requires |ss| == 1
  {
    var s :| s in ss; s
  }

  lemma SingletonIs(ss: set<Subst>, s: Subst)
    requires |ss| == 1 && s in ss
    ensures ss == {s} && Only(ss) == s
  {
    assert |ss - {s}| == 0;
    assert ss - {s} == {};
  }

  /** Every offset listed has exactly one substitution. */
  ghost predicate Singletons(m: map<nat, set<Subst>>, offsets: seq<nat>) {
    forall k | 0 <= k < |offsets| :: offsets[k] in m && |m[offsets[k]]| == 1
  }

  /** What the second loop pushes for one path, over the given offsets. */
  ghost function RowOf(m: map<nat, set<Subst>>, offsets: seq<nat>): seq<Rewrite>
    requires Singletons(m, offsets)
    decreases |offsets|
  {
    if offsets == [] then []
    else
      var o := offsets[|offsets| - 1];
      var s := Only(m[o]);
      RowOf(m, offsets[..|offsets| - 1]) + [Rewrite(o, s.length, s.text)]
  }

  lemma {:induction false} RowOfAt(m: map<nat, set<Subst>>, offsets: seq<nat>)
    requires Singletons(m, offsets)
    ensures |RowOf(m, offsets)| == |offsets|
    ensures forall k | 0 <= k < |offsets| ::
              RowOf(m, offsets)[k].offset == offsets[k] && m[offsets[k]] == {SubstOf(RowOf(m, offsets)[k])}
    decreases |offsets|
  {
    if offsets != [] {
      var n := |offsets|;
      RowOfAt(m, offsets[..n - 1]);
      var o := offsets[n - 1];
      SingletonIs(m[o], Only(m[o]));
    }
  }

  /** Taking one more offset adds one rewrite at the end of the row. */
  lemma RowOfSnoc(m: map<nat, set<Subst>>, offsets: seq<nat>, j: nat)
    requires j < |offsets| && offsets[j] in m && |m[offsets[j]]| == 1
    requires Singletons(m, offsets[..j])
    ensures Singletons(m, offsets[..j + 1])
    ensures RowOf(m, offsets[..j + 1])
            == RowOf(m, offsets[..j]) + [Rewrite(offsets[j], Only(m[offsets[j]]).length, Only(m[offsets[j]]).text)]
  {
    var after := offsets[..j + 1];
    assert after[..j] == offsets[..j] && after[j] == offsets[j];
    forall k | 0 <= k < |after| ensures after[k] in m && |m[after[k]]| == 1 {
      if k < j {
        assert after[k] == offsets[..j][k];
      }
    }
  }

  ghost predicate ConflictAt(g: Grouped, p: Path, o: nat) {
    p in g && o in g[p] && |g[p][o]| > 1
  }

  ghost predicate ConflictAmong(g: Grouped, paths: set<Path>) {
    exists p, o :: p in paths && ConflictAt(g, p, o)
  }

  ghost predicate ConflictBefore(g: Grouped, p: Path, offsets: seq<nat>) {
    exists k :: 0 <= k < |offsets| && ConflictAt(g, p, offsets[k])
  }

  /** Every offset of a path has exactly one substitution. */
  ghost predicate RowClean(m: map<nat, set<Subst>>) {
    forall o | o in m :: |m[o]| == 1
  }

  /** The rewrites `condense_rewrites` returns for one path: one per offset,
      in increasing offset order. */
  ghost function Row(m: map<nat, set<Subst>>): seq<Rewrite>
    requires RowClean(m)
  {
    RowOf(m, SortedKeys(m.Keys))
  }

  /** The result once the paths in `done` have been condensed: the error
      exactly when one of them has two different substitutions at one
      offset, and otherwise those paths, each with its row. */
  ghost predicate RowsOf(g: Grouped, done: set<Path>, r: Result<Condensed, CondenseError>) {
    && (r.Err? <==> ConflictAmong(g, done))
    && (r.Ok? ==> forall p :: p in r.value <==> p in done)
    && (r.Ok? ==> forall p | p in done :: p in g && RowClean(g[p]) && r.value[p] == Row(g[p]))
  }

  lemma ConflictBeforeStep(g: Grouped, p: Path, offsets: seq<nat>, j: nat)
    requires j < |offsets|
    ensures ConflictBefore(g, p, offsets[..j + 1]) <==> ConflictBefore(g, p, offsets[..j]) || ConflictAt(g, p, offsets[j])
  {
    var before, after := offsets[..j], offsets[..j + 1];
    if ConflictBefore(g, p, before) {
      var k :| 0 <= k < |before| && ConflictAt(g, p, before[k]);
      assert after[k] == before[k];
    }
    if ConflictAt(g, p, offsets[j]) {
      assert after[j] == offsets[j];
    }
    if ConflictBefore(g, p, after) {
      var k :| 0 <= k < |after| && ConflictAt(g, p, after[k]);
      if k < j {
        assert before[k] == after[k];
      }
    }
  }

  lemma ConflictAddPath(g: Grouped, done: set<Path>, p: Path)
    requires p in g
    ensures ConflictAmong(g, done + {p}) <==> ConflictAmong(g, done) || ConflictBefore(g, p, SortedKeys(g[p].Keys))
  {
    var offsets := SortedKeys(g[p].Keys);
    SortedKeysOrder(g[p].Keys);
    if ConflictAmong(g, done + {p}) {
      var q, o :| q in done + {p} && ConflictAt(g, q, o);
      if q == p && q !in done {
        assert o in offsets;
        var k :| 0 <= k < |offsets| && offsets[k] == o;
        assert ConflictBefore(g, p, offsets);
      } else {
        assert ConflictAmong(g, done);
      }
    }
    if ConflictBefore(g, p, offsets) {
      var k :| 0 <= k < |offsets| && ConflictAt(g, p, offsets[k]);
      assert p in done + {p};
    }
    if ConflictAmong(g, done) {
      var q, o :| q in done && ConflictAt(g, q, o);
      assert q in done + {p};
    }
  }

  lemma CleanWithoutConflict(g: Grouped, p: Path)
    requires NoEmpty(g) && p in g && !ConflictBefore(g, p, SortedKeys(g[p].Keys))
    ensures RowClean(g[p])
  {
    var offsets := SortedKeys(g[p].Keys);
    SortedKeysOrder(g[p].Keys);
    forall o | o in g[p] ensures |g[p][o]| == 1 {
      assert o in offsets;
      var k :| 0 <= k < |offsets| && offsets[k] == o;
      assert !ConflictAt(g, p, offsets[k]);
    }
  }

  lemma SomeOffset(g: Grouped, p: Path)
    requires NoEmpty(g) && p in g
    ensures |SortedKeys(g[p].Keys)| > 0
  {
    SortedKeysOrder(g[p].Keys);
    var o :| o in g[p];
    assert o in SortedKeys(g[p].Keys);
  }

  /** Adding a path whose offsets are all free of conflicts to the result. */
  lemma RowsOfAdd(g: Grouped, done: set<Path>, path: Path, r0: Result<Condensed, CondenseError>, r: Result<Condensed, CondenseError>)
    requires NoEmpty(g) && path in g && path !in done
    requires RowsOf(g, done, r0)
    requires r.Err? <==> r0.Err? || ConflictBefore(g, path, SortedKeys(g[path].Keys))
    requires r.Ok? ==> r0.Ok? && RowClean(g[path]) && path in r.value && r.value[path] == Row(g[path])
    requires r.Ok? ==> forall q :: q in r.value <==> q in r0.value || q == path
    requires r.Ok? ==> forall q | q in r0.value :: q in r.value && r.value[q] == r0.value[q]
    ensures RowsOf(g, done + {path}, r)
  {
    ConflictAddPath(g, done, path);
  }

  /** `condense_rewrites`. */
  method Condense(frs: seq<FileRewrite>) returns (result: Result<Condensed, CondenseError>)
    ensures RowsOf(Group(frs), Group(frs).Keys, result)
  {
    var byPath: Grouped := map[];
    var i := 0;
    while i < |frs|
      invariant 0 <= i <= |frs|
      invariant byPath == Group(frs[..i])
    {
      assert frs[..i + 1][..i] == frs[..i];
      byPath := AddRewrite(byPath, frs[i]);
      i := i + 1;
    }
    assert frs[..|frs|] == frs;
    GroupHolds(frs);

    result := Ok(map[]);
    var todo := byPath.Keys;
    ghost var done: set<Path> := {};
    while todo != {}
      invariant todo <= byPath.Keys && done == byPath.Keys - todo
      invariant RowsOf(byPath, done, result)
      decreases todo
    {
      var path :| path in todo;
      ghost var before := result;
      result := CondensePath(byPath, path, result);
      RowsOfAdd(byPath, done, path, before, result);
      todo := todo - {path};
      done := done + {path};
    }
  }

  /** `condensed.entry(path).or_default().push(rw)`. */
  function Push(v: Condensed, path: Path, rw: Rewrite): (r: Condensed)
    ensures forall q :: q in r <==> q in v || q == path
    ensures forall q | q in v && q != path :: r[q] == v[q]
    ensures r[path] == (if path in v then v[path] else []) + [rw]
  {
    v[path := (if path in v then v[path] else []) + [rw]]
  }

  /** Pushing the rewrite of the next offset keeps the inner loop's account
      of the result. */
  lemma PushNext(g: Grouped, path: Path, offsets: seq<nat>, j: nat, v0: Condensed, v: Condensed, subst: Subst)
    requires path in g && j < |offsets| && offsets[j] in g[path] && g[path][offsets[j]] == {subst}
    requires path !in v0
    requires forall q :: q in v <==> q in v0 || (j > 0 && q == path)
    requires forall q | q in v0 :: q in v && v[q] == v0[q]
    requires j > 0 ==> Singletons(g[path], offsets[..j]) && path in v && v[path] == RowOf(g[path], offsets[..j])
    ensures var r := Push(v, path, Rewrite(offsets[j], subst.length, subst.text));
            && (forall q :: q in r <==> q in v0 || q == path)
            && (forall q | q in v0 :: q in r && r[q] == v0[q])
            && Singletons(g[path], offsets[..j + 1]) && path in r && r[path] == RowOf(g[path], offsets[..j + 1])
  {
    if j == 0 {
      assert offsets[..j] == [];
    }
    SingletonIs(g[path][offsets[j]], subst);
    RowOfSnoc(g[path], offsets, j);
  }

  /** One turn of the outer loop of `condense_rewrites`: the offsets of one
      path, in increasing order, each pushed onto the path's row unless an
      error has been recorded. */
  method CondensePath(byPath: Grouped, path: Path, result0: Result<Condensed, CondenseError>)
    returns (result: Result<Condensed, CondenseError>)
    requires NoEmpty(byPath) && path in byPath
    requires result0.Ok? ==> path !in result0.value
    ensures result.Err? <==> result0.Err? || ConflictBefore(byPath, path, SortedKeys(byPath[path].Keys))
    ensures result.Ok? ==> result0.Ok? && RowClean(byPath[path]) && path in result.value && result.value[path] == Row(byPath[path])
    ensures result.Ok? ==> forall q :: q in result.value <==> q in result0.value || q == path
    ensures result.Ok? ==> forall q | q in result0.value :: q in result.value && result.value[q] == result0.value[q]
  {
    ghost var g := byPath;
    result := result0;
    var offsets := SortedKeys(byPath[path].Keys);
    var j := 0;
    while j < |offsets|
      invariant 0 <= j <= |offsets|
      invariant result.Err? <==> result0.Err? || ConflictBefore(g, path, offsets[..j])
      invariant result.Ok? ==> result0.Ok?
      invariant result.Ok? ==> forall q :: q in result.value <==> q in result0.value || (j > 0 && q == path)
      invariant result.Ok? ==> forall q | q in result0.value :: q in result.value && result.value[q] == result0.value[q]
      invariant result.Ok? && j > 0 ==> Singletons(g[path], offsets[..j]) && path in result.value && result.value[path] == RowOf(g[path], offsets[..j])
    {
      var offset := offsets[j];
      var substs := byPath[path][offset];
      ConflictBeforeStep(g, path, offsets, j);
      assert ConflictAt(g, path, offsets[j]) <==> |substs| > 1;
      if |substs| > 1 {
        result := Err(ConflictingSubstitutions);
      } else {
        var subst :| subst in substs;
        SingletonIs(substs, subst);
        if result.Ok? {
          PushNext(g, path, offsets, j, result0.value, result.value, subst);
          result := Ok(Push(result.value, path, Rewrite(offset, subst.length, subst.text)));
        }
      }
      j := j + 1;
    }
    assert offsets[..j] == offsets;
    if result.Ok? {
      CleanWithoutConflict(g, path);
      SomeOffset(g, path);
    }
  }

  /** Each input rewrite is held in the grouping under its path and offset. */
  lemma Held(frs: seq<FileRewrite>, i: nat)
    requires i < |frs|
    ensures Holds(Group(frs), frs[i].path, frs[i].rewrite.offset, SubstOf(frs[i].rewrite))
  {
    GroupHolds(frs);
    assert Requested(frs, frs[i].path, frs[i].rewrite.offset, SubstOf(frs[i].rewrite));
  }

  /** Whatever the grouping holds came from some input rewrite. */
  lemma HeldBy(frs: seq<FileRewrite>, p: Path, o: nat, s: Subst) returns (i: nat)
    requires Holds(Group(frs), p, o, s)
    ensures i < |frs| && frs[i].path == p && frs[i].rewrite.offset == o && SubstOf(frs[i].rewrite) == s
  {
    GroupHolds(frs);
    i :| 0 <= i < |frs| && frs[i].path == p && frs[i].rewrite.offset == o && SubstOf(frs[i].rewrite) == s;
  }

  /** Two rewrites of the input that ask for different substitutions at the
      same offset of the same file. */
  ghost predicate ConflictingPair(frs: seq<FileRewrite>) {
    exists i, j :: 0 <= i < |frs| && 0 <= j < |frs|
      && frs[i].path == frs[j].path && frs[i].rewrite.offset == frs[j].rewrite.offset
      && SubstOf(frs[i].rewrite) != SubstOf(frs[j].rewrite)
  }

  /** `condense_rewrites` fails exactly when two inputs conflict. */
  lemma {:induction false} CondenseErrIff(frs: seq<FileRewrite>)
    ensures ConflictAmong(Group(frs), Group(frs).Keys) <==> ConflictingPair(frs)
  {
    var g := Group(frs);
    if ConflictAmong(g, g.Keys) {
      var p, o :| p in g.Keys && ConflictAt(g, p, o);
      var a :| a in g[p][o];
      assert |g[p][o] - {a}| > 0;
      var b :| b in g[p][o] - {a};
      var i := HeldBy(frs, p, o, a);
      var j := HeldBy(frs, p, o, b);
      assert ConflictingPair(frs);
    }
    if ConflictingPair(frs) {
      var i, j :| 0 <= i < |frs| && 0 <= j < |frs|
        && frs[i].path == frs[j].path && frs[i].rewrite.offset == frs[j].rewrite.offset
        && SubstOf(frs[i].rewrite) != SubstOf(frs[j].rewrite);
      var p, o := frs[i].path, frs[i].rewrite.offset;
      var a, b := SubstOf(frs[i].rewrite), SubstOf(frs[j].rewrite);
      Held(frs, i);
      Held(frs, j);
      assert b in g[p][o] - {a};
      assert |g[p][o]| == |g[p][o] - {a}| + 1;
      assert ConflictAt(g, p, o);
    }
  }

  /** A row lists its offsets in strictly increasing order. */
  lemma {:induction false} RowSorted(m: map<nat, set<Subst>>)
    requires RowClean(m)
    ensures forall a, b | 0 <= a < b < |Row(m)| :: Row(m)[a].offset < Row(m)[b].offset
  {
    SortedKeysOrder(m.Keys);
    RowOfAt(m, SortedKeys(m.Keys));
  }

  /** The paths of the result are exactly the paths of the input. */
  lemma {:induction false} GroupPaths(frs: seq<FileRewrite>)
    ensures forall p :: p in Group(frs) <==> exists i :: 0 <= i < |frs| && frs[i].path == p
  {
    GroupHolds(frs);
    var g := Group(frs);
    forall p ensures p in g <==> exists i :: 0 <= i < |frs| && frs[i].path == p {
      if p in g {
        var o :| o in g[p];
        var s :| s in g[p][o];
        var i := HeldBy(frs, p, o, s);
      }
      if i :| 0 <= i < |frs| && frs[i].path == p {
        Held(frs, i);
      }
    }
  }

  /** A path's row holds exactly the rewrites asked for that path: nothing is
      lost and nothing is invented, and identical requests appear once. */
  lemma {:induction false} RowExact(frs: seq<FileRewrite>, p: Path)
    requires p in Group(frs) && RowClean(Group(frs)[p])
    ensures forall rw :: rw in Row(Group(frs)[p]) <==> exists i :: 0 <= i < |frs| && frs[i].path == p && frs[i].rewrite == rw
  {
    var m := Group(frs)[p];
    var offsets := SortedKeys(m.Keys);
    SortedKeysOrder(m.Keys);
    RowOfAt(m, offsets);
    var row := Row(m);
    forall rw ensures rw in row <==> exists i :: 0 <= i < |frs| && frs[i].path == p && frs[i].rewrite == rw {
      if rw in row {
        var k :| 0 <= k < |row| && row[k] == rw;
        assert SubstOf(rw) in m[offsets[k]];
        var i := HeldBy(frs, p, rw.offset, SubstOf(rw));
        assert frs[i].rewrite == rw;
      }
      if i :| 0 <= i < |frs| && frs[i].path == p && frs[i].rewrite == rw {
        Held(frs, i);
        assert rw.offset in m.Keys;
        var k :| 0 <= k < |offsets| && offsets[k] == rw.offset;
        SingletonIs(m[rw.offset], SubstOf(rw));
        assert SubstOf(row[k]) == SubstOf(rw);
        assert row[k] == rw;
      }
    }
  }

  /** Insertions (rewrites that replace nothing) never overlap once
      condensed. */
  lemma {:induction false} InsertionsDoNotOverlap(frs: seq<FileRewrite>, p: Path)
    requires p in Group(frs) && RowClean(Group(frs)[p])
    requires forall i | 0 <= i < |frs| :: frs[i].rewrite.length == 0
    ensures NonOverlapping(Row(Group(frs)[p]))
  {
    var row := Row(Group(frs)[p]);
    RowSorted(Group(frs)[p]);
    RowExact(frs, p);
    forall k | 0 <= k < |row| - 1 ensures row[k].offset + row[k].length <= row[k + 1].offset {
      assert row[k] in row;
    }
  }

  /** So `apply` splices a condensed row of insertions without panicking,
      as long as every insertion asked for that path lies in the source on
      a character boundary. */
  lemma CondensedInsertionsApply(frs: seq<FileRewrite>, p: Path, source: Bytes)
    requires p in Group(frs) && RowClean(Group(frs)[p])
    requires forall i | 0 <= i < |frs| :: frs[i].rewrite.length == 0
    requires forall i | 0 <= i < |frs| && frs[i].path == p ::
               frs[i].rewrite.offset <= |source| && IsCharBoundary(source, frs[i].rewrite.offset)
    ensures FitsFrom(source, 0, Row(Group(frs)[p]))
  {
    var row := Row(Group(frs)[p]);
    InsertionsDoNotOverlap(frs, p);
    RowExact(frs, p);
    assert forall rw | rw in row ::
      rw.length == 0 && rw.offset <= |source| && IsCharBoundary(source, rw.offset);
    assert InBounds(source, row) by {
      forall k | 0 <= k < |row| ensures row[k] in row { }
    }
    FitsIffOrdered(source, row);
  }

  // ---------------------------------------------------------------------
  // do_parallel: splitting the sources among the workers

  /** `(n + (ncpus - 1)) / ncpus`: the sources each worker gets. */
  function ChunkSize(n: nat, ncpus: nat): (size: nat)
    requires ncpus >= 1
    ensures size <= n
  {
    var size := (n + (ncpus - 1)) / ncpus;
    assert size * ncpus <= n + (ncpus - 1);
    assert (n + 1) * ncpus == n * ncpus + ncpus && n * ncpus >= n;
    TimesMonotone(size, n + 1, ncpus);
    size
  }

  /** The chunk size is the ceiling of `n / ncpus`. */
  lemma ChunkSizeIsCeiling(n: nat, ncpus: nat)
    requires ncpus >= 1
    ensures ChunkSize(n, ncpus) * ncpus >= n
    ensures n > 0 ==> ChunkSize(n, ncpus) >= 1 && (ChunkSize(n, ncpus) - 1) * ncpus < n
    ensures n == 0 ==> ChunkSize(n, ncpus) == 0
  {
    var s := ChunkSize(n, ncpus);
    var r := (n + (ncpus - 1)) % ncpus;
    assert n + (ncpus - 1) == s * ncpus + r && 0 <= r < ncpus;
    assert (s - 1) * ncpus == s * ncpus - ncpus;
  }

  /** `slice::chunks` with a non-zero size: consecutive pieces of `size`
      elements, the last one possibly shorter. */
  function ChunksOf<T>(xs: seq<T>, size: nat): seq<seq<T>>
    requires size > 0
    decreases |xs|
  {
    if xs == [] then []
    else if |xs| <= size then [xs]
    else [xs[..size]] + ChunksOf(xs[size..], size)
  }

  /** `slice::chunks`: None stands for the panic on a chunk size of 0. */
  function Chunks<T>(xs: seq<T>, size: nat): Option<seq<seq<T>>> {
    if size == 0 then None else Some(ChunksOf(xs, size))
  }

  function Flatten<T>(xss: seq<seq<T>>): seq<T> {
    if xss == [] then [] else xss[0] + Flatten(xss[1..])
  }

  /** The chunks are non-empty, at most `size` long, and cover the input
      in order. */
  lemma {:induction false} ChunksCover<T>(xs: seq<T>, size: nat)
    requires size > 0
    ensures Flatten(ChunksOf(xs, size)) == xs
    ensures forall c | c in ChunksOf(xs, size) :: 0 < |c| <= size
    decreases |xs|
  {
    if xs == [] {
    } else if |xs| <= size {
      assert Flatten(ChunksOf(xs, size)) == xs + Flatten([]);
    } else {
      var rest := ChunksOf(xs[size..], size);
      ChunksCover(xs[size..], size);
      assert ChunksOf(xs, size) == [xs[..size]] + rest;
      assert ([xs[..size]] + rest)[1..] == rest;
      assert xs[..size] + xs[size..] == xs;
    }
  }

  /** There are `ceil(|xs| / size)` chunks. */
  lemma {:induction false} ChunksCount<T>(xs: seq<T>, size: nat)
    requires size > 0
    ensures |ChunksOf(xs, size)| * size >= |xs|
    ensures |xs| > 0 ==> (|ChunksOf(xs, size)| - 1) * size < |xs|
    decreases |xs|
  {
    if |xs| > size {
      var k := |ChunksOf(xs[size..], size)|;
      ChunksCount(xs[size..], size);
      assert |ChunksOf(xs, size)| == k + 1;
      assert (k + 1) * size == k * size + size;
      assert k * size >= |xs| - size;
      assert k > 0;
      assert (k - 1) * size == k * size - size;
    }
  }

  lemma TimesMonotone(a: int, b: int, s: int)
    requires s > 0 && a * s < b * s
    ensures a < b
  {
  }

  /** `do_parallel` panics on an empty source list, and otherwise hands out
      at most `ncpus` non-empty chunks that together are the source list, in
      order. */
  lemma {:induction false} ParallelChunks<T>(sources: seq<T>, ncpus: nat)
    requires ncpus >= 1
    ensures Chunks(sources, ChunkSize(|sources|, ncpus)).None? <==> sources == []
    ensures sources != [] ==>
              var cs := Chunks(sources, ChunkSize(|sources|, ncpus)).value;
              |cs| <= ncpus && Flatten(cs) == sources && forall c | c in cs :: |c| > 0
  {
    var n := |sources|;
    ChunkSizeIsCeiling(n, ncpus);
    if n > 0 {
      var s := ChunkSize(n, ncpus);
      ChunksCover(sources, s);
      ChunksCount(sources, s);
      var k := |ChunksOf(sources, s)|;
      assert (k - 1) * s < ncpus * s;
      TimesMonotone(k - 1, ncpus, s);
    }
  }

  // ---------------------------------------------------------------------
  // handle_var_decl: where `__thread ` goes

  /** The text inserted in front of every rewritten declaration. */
  const ThreadKw: Bytes := Ascii("__thread ")

  /** What libclang reports about a variable's type: whether it is
      const-qualified, and for the array kinds whether the element type is. */
  datatype TypeKind = ConstantArray(elementConst: bool) | IncompleteArray(elementConst: bool) | OtherKind
  datatype VarType = VarType(constQualified: bool, kind: TypeKind)

  /** A variable declaration as the rewriter sees it: its type (None when
      libclang gives none), the file and byte offset at which its source
      range starts, and the source text of that range (None when the range
      or the file contents cannot be had). */
  datatype VarDecl = VarDecl(ty: Option<VarType>, file: Path, start: nat, code: Option<string>)

  datatype DeclError = NoType | NoSource

  /** A constant: the type is const-qualified, or it is an array of
      const-qualified elements. */
  predicate ConstantType(t: VarType) {
    t.constQualified || (!t.kind.OtherKind? && t.kind.elementConst)
  }

  /** `is_decl_constant`. */
  function IsDeclConstant(ty: Option<VarType>): (r: Result<bool, DeclError>)
    ensures r.Err? <==> ty.None?
    ensures r.Ok? ==> (r.value <==> ConstantType(ty.value))
  {
    match ty
    case None => Err(NoType)
    case Some(t) =>
      if t.constQualified then Ok(true)
      else match t.kind
        case ConstantArray(elementConst) => Ok(elementConst)
        case IncompleteArray(elementConst) => Ok(elementConst)
        case OtherKind => Ok(false)
  }

  /** `\s` of the `regex` crate: the Unicode White_Space property. */
  predicate IsWhite(c: char) {
    || 0x09 <= c as int <= 0x0D || c as int == 0x20 || c as int == 0x85 || c as int == 0xA0
    || c as int == 0x1680 || 0x2000 <= c as int <= 0x200A || c as int == 0x2028 || c as int == 0x2029
    || c as int == 0x202F || c as int == 0x205F || c as int == 0x3000
  }

  predicate StartsWith(s: string, w: string) {
    |w| <= |s| && s[..|w|] == w
  }

  /** One of `const`, `static`, `extern`, `NON_EXEC_STATIC`. */
  predicate IsKeyword(w: string) {
    w == "const" || w == "static" || w == "extern" || w == "NON_EXEC_STATIC"
  }

  /** The length of the keyword `s` starts with, 0 when there is none.
      The keywords begin with different letters, so at most one fits. */
  function KeywordLen(s: string): (k: nat)
    ensures k <= |s|
  {
    if StartsWith(s, "const") then 5
    else if StartsWith(s, "static") then 6
    else if StartsWith(s, "extern") then 6
    else if StartsWith(s, "NON_EXEC_STATIC") then 15
    else 0
  }

  lemma KeywordLenOf(s: string, w: string)
    requires IsKeyword(w) && StartsWith(s, w)
    ensures KeywordLen(s) == |w| && !IsWhite(s[0])
  {
    assert s[0] == s[..|w|][0];
  }

  /** A keyword at the front of `p` followed by qualifiers. */
  ghost predicate KeywordThen(p: string, w: string)
    requires |w| > 0
    decreases |p|, 0
  {
    StartsWith(p, w) && Qualifiers(p[|w|..])
  }

  /** Strings matched by `((const|static|extern|NON_EXEC_STATIC)\s*)*`
      after `\s*`: runs of whitespace and the four keywords in any order. */
  ghost predicate Qualifiers(p: string)
    decreases |p|, 1
  {
    || p == []
    || (IsWhite(p[0]) && Qualifiers(p[1..]))
    || KeywordThen(p, "const") || KeywordThen(p, "static")
    || KeywordThen(p, "extern") || KeywordThen(p, "NON_EXEC_STATIC")
  }

  /** The end of the match of `^\s*((const|static|extern|NON_EXEC_STATIC)\s*)*`
      on `s`, counted in characters. */
  function QualifierRun(s: string): (n: nat)
    ensures n <= |s|
    decreases |s|
  {
    if s != [] && IsWhite(s[0]) then 1 + QualifierRun(s[1..])
    else
      var k := KeywordLen(s);
      if k > 0 then k + QualifierRun(s[k..]) else 0
  }

  /** The run is made of qualifiers and stops where neither whitespace nor a
      keyword follows. */
  lemma {:induction false} QualifierRunMatches(s: string)
    ensures Qualifiers(s[..QualifierRun(s)])
    ensures var n := QualifierRun(s); n == |s| || (!IsWhite(s[n]) && KeywordLen(s[n..]) == 0)
    decreases |s|
  {
    var n := QualifierRun(s);
    if s != [] && IsWhite(s[0]) {
      QualifierRunMatches(s[1..]);
      assert s[..n][1..] == s[1..][..n - 1];
      assert s[n..] == s[1..][n - 1..];
    } else {
      var k := KeywordLen(s);
      if k > 0 {
        QualifierRunMatches(s[k..]);
        assert s[n..] == s[k..][n - k..];
        KeywordRunMatches(s, n);
      } else {
        assert s[..0] == [];
      }
    }
  }

  /** A keyword followed by qualifiers is made of qualifiers. */
  lemma KeywordRunMatches(s: string, n: nat)
    requires 0 < KeywordLen(s) <= n <= |s|
    requires Qualifiers(s[KeywordLen(s)..][..n - KeywordLen(s)])
    ensures Qualifiers(s[..n])
  {
    var k := KeywordLen(s);
    assert s[..n][k..] == s[k..][..n - k];
    var w := if k == 5 then "const" else if k == 15 then "NON_EXEC_STATIC"
             else if StartsWith(s, "static") then "static" else "extern";
    assert StartsWith(s[..n], w) by {
      assert s[..n][..|w|] == s[..|w|];
    }
    assert KeywordThen(s[..n], w);
  }

  /** One step of the longest-match argument: a prefix made of qualifiers
      that starts with keyword `w` continues after it. */
  lemma LongestAfterKeyword(s: string, m: nat, w: string)
    requires m <= |s| && IsKeyword(w) && KeywordThen(s[..m], w)
    requires |w| <= m
    ensures StartsWith(s, w) && KeywordLen(s) == |w| && QualifierRun(s) == |w| + QualifierRun(s[|w|..])
    ensures s[|w|..][..m - |w|] == s[..m][|w|..] && Qualifiers(s[|w|..][..m - |w|])
  {
    assert s[..|w|] == s[..m][..|w|];
    KeywordLenOf(s, w);
  }

  /** No longer prefix of `s` is made of qualifiers: the run is the longest
      match, whatever order the regex tries its alternatives in. */
  lemma {:induction false} QualifierRunLongest(s: string, m: nat)
    requires m <= |s| && Qualifiers(s[..m])
    ensures m <= QualifierRun(s)
    decreases |s|
  {
    var p := s[..m];
    if m > 0 {
      if IsWhite(p[0]) {
        assert s[1..][..m - 1] == p[1..];
        WhiteThenQualifiers(p);
        QualifierRunLongest(s[1..], m - 1);
      } else {
        var w := if KeywordThen(p, "const") then "const"
                 else if KeywordThen(p, "static") then "static"
                 else if KeywordThen(p, "extern") then "extern" else "NON_EXEC_STATIC";
        LongestAfterKeyword(s, m, w);
        QualifierRunLongest(s[|w|..], m - |w|);
      }
    }
  }

  /** No keyword starts with whitespace, so qualifiers that start with
      whitespace go on after it. */
  lemma WhiteThenQualifiers(p: string)
    requires p != [] && IsWhite(p[0]) && Qualifiers(p)
    ensures Qualifiers(p[1..])
  {
    assert !KeywordThen(p, "const") by {
      if StartsWith(p, "const") { KeywordLenOf(p, "const"); }
    }
    assert !KeywordThen(p, "static") by {
      if StartsWith(p, "static") { KeywordLenOf(p, "static"); }
    }
    assert !KeywordThen(p, "extern") by {
      if StartsWith(p, "extern") { KeywordLenOf(p, "extern"); }
    }
    assert !KeywordThen(p, "NON_EXEC_STATIC") by {
      if StartsWith(p, "NON_EXEC_STATIC") { KeywordLenOf(p, "NON_EXEC_STATIC"); }
    }
  }

  /** The regex has no word boundaries: in `constant int x;` the `const`
      of `constant` is taken for a qualifier. */
  lemma NoWordBoundaries()
    ensures QualifierRun("constant int x;") == 5
  {
    var s := "constant int x;";
    assert s[0] == 'c' && !IsWhite(s[0]);
    assert s[..5] == "const";
    assert KeywordLen(s) == 5;
    var t := s[5..];
    assert t[0] == 'a' && !IsWhite(t[0]);
    FirstCharDiffers(t, "const");
    FirstCharDiffers(t, "static");
    FirstCharDiffers(t, "extern");
    FirstCharDiffers(t, "NON_EXEC_STATIC");
    assert KeywordLen(t) == 0;
    assert QualifierRun(t) == 0;
  }

  lemma FirstCharDiffers(t: string, w: string)
    requires |t| > 0 && |w| > 0 && t[0] != w[0]
    ensures !StartsWith(t, w)
  {
  }

  /** `find_thread_kw_insert_loc`: the byte offset just after the leading
      qualifiers of the declaration. */
  function InsertLoc(decl: VarDecl): (r: Result<nat, DeclError>)
    ensures r.Err? <==> decl.code.None?
    ensures r.Ok? ==> decl.start <= r.value <= decl.start + |Utf8.Encode(decl.code.value)|
  {
    match decl.code
    case None => Err(NoSource)
    case Some(code) =>
      var n := QualifierRun(code);
      assert code[..n] + code[n..] == code;
      Utf8.EncodeAppend(code[..n], code[n..]);
      Ok(decl.start + |Utf8.Encode(code[..n])|)
  }

  /** The rewrites `handle_var_decl` pushes for a declaration, or its error. */
  function DeclRewrites(decl: VarDecl): (r: Result<seq<FileRewrite>, DeclError>)
    ensures r.Err? <==> decl.ty.None? || (!ConstantType(decl.ty.value) && decl.code.None?)
    ensures r.Ok? ==> |r.value| <= 1
    ensures r.Ok? ==> forall k | 0 <= k < |r.value| ::
              r.value[k].path == decl.file && r.value[k].rewrite.length == 0 && r.value[k].rewrite.text == ThreadKw
  {
    match IsDeclConstant(decl.ty)
    case Err(e) => Err(e)
    case Ok(isConst) =>
      if isConst then Ok([])
      else match InsertLoc(decl)
        case Err(e) => Err(e)
        case Ok(offset) => Ok([FileRewrite(decl.file, Rewrite(offset, 0, ThreadKw))])
  }

  /** Constants are never rewritten. */
  lemma ConstantsUntouched(decl: VarDecl)
    requires decl.ty.Some? && ConstantType(decl.ty.value)
    ensures DeclRewrites(decl) == Ok([])
  {
  }

  /** Any other declaration with source text gets exactly one zero-length
      insertion of `__thread ` in its own file, after its leading qualifiers. */
  lemma OthersGetOneInsertion(decl: VarDecl)
    requires decl.ty.Some? && !ConstantType(decl.ty.value) && decl.code.Some?
    ensures var r := DeclRewrites(decl);
            && r.Ok? && |r.value| == 1
            && r.value[0].path == decl.file
            && r.value[0].rewrite.length == 0 && r.value[0].rewrite.text == ThreadKw
            && r.value[0].rewrite.offset == decl.start + |Utf8.Encode(decl.code.value[..QualifierRun(decl.code.value)])|
  {
  }

  /** Splicing the insertion into the declaration's own text puts
      `__thread ` between the qualifiers and the rest, and `apply` cannot
      panic on it: the offset falls on a character boundary. */
  lemma InsertionAfterQualifiers(code: string)
    ensures var n := QualifierRun(code);
            var rw := Rewrite(|Utf8.Encode(code[..n])|, 0, ThreadKw);
            && FitsFrom(Utf8.Encode(code), 0, [rw])
            && SpliceFrom(Utf8.Encode(code), 0, [rw]) == Utf8.Encode(code[..n]) + ThreadKw + Utf8.Encode(code[n..])
  {
    var n := QualifierRun(code);
    var pre, post := Utf8.Encode(code[..n]), Utf8.Encode(code[n..]);
    assert code[..n] + code[n..] == code;
    Utf8.EncodeAppend(code[..n], code[n..]);
    var b := Utf8.Encode(code);
    assert b == pre + post;
    assert b[..|pre|] == pre && b[|pre|..] == post;
    if n < |code| {
      Utf8.EncodeLead(code[n..]);
      assert b[|pre|] == post[0];
    }
    SpliceOneInsertion(b, |pre|, ThreadKw);
  }

  /** A single insertion at a character boundary splices in between the
      bytes before and after it. */
  lemma SpliceOneInsertion(b: Bytes, k: nat, text: Bytes)
    requires k <= |b| && IsCharBoundary(b, k)
    ensures FitsFrom(b, 0, [Rewrite(k, 0, text)])
    ensures SpliceFrom(b, 0, [Rewrite(k, 0, text)]) == b[..k] + text + b[k..]
  {
    var rw := Rewrite(k, 0, text);
    assert [rw][1..] == [];
    assert FitsFrom(b, k, []);
    assert SpliceFrom(b, 0, [rw]) == b[0..k] + text + SpliceFrom(b, k, []);
  }

  /** Every rewrite the rule produces is the same zero-length insertion of
      `__thread `, so `condense_rewrites` never meets a conflict. */
  lemma ThreadInsertionsNeverConflict(frs: seq<FileRewrite>)
    requires forall i | 0 <= i < |frs| :: frs[i].rewrite.length == 0 && frs[i].rewrite.text == ThreadKw
    ensures !ConflictAmong(Group(frs), Group(frs).Keys)
  {
    CondenseErrIff(frs);
  }

  /** `handle_var_decl` appends to this list. */
  class RewriteVec {
    var items: seq<FileRewrite>

    constructor()
      ensures items == []
    {
      items := [];
    }

    /** `handle_var_decl`. */
    method HandleVarDecl(decl: VarDecl) returns (r: Result<(), DeclError>)
      modifies this
      ensures r.Err? <==> DeclRewrites(decl).Err?
      ensures r.Err? ==> r.error == DeclRewrites(decl).error && items == old(items)
      ensures r.Ok? ==> items == old(items) + DeclRewrites(decl).value
    {
      var isConst := IsDeclConstant(decl.ty);
      if isConst.Err? {
        return Err(isConst.error);
      }
      if isConst.value {
        return Ok(());
      }
      var loc := InsertLoc(decl);
      if loc.Err? {
        return Err(loc.error);
      }
      items := items + [FileRewrite(decl.file, Rewrite(loc.value, 0, ThreadKw))];
      return Ok(());
    }
  }
}

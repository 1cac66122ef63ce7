/**
 * The viewer's selection logic: which two logs it shows (`pick_two`) and
 * how `App.reload` replaces and lays out their panels.
 *
 * A log's file name without `.csv` is its key; `list_device_files` supplies
 * the keys in sorted order, each with its path, as an input.
 */
module Gui {
  import opened Common
  import opened PyDict

  /** The keys `pick_two` and `reload` put first, in this order. */
  const PREFERRED: seq<string> := ["Lab_inside", "Lab_outside"]

  /** How many panels the viewer shows. */
  const PANELS: nat := 2

  predicate Distinct<T(==)>(s: seq<T>)
  {
    forall i, j :: 0 <= i < j < |s| ==> s[i] != s[j]
  }

  lemma PreferredDistinct()
    ensures Distinct(PREFERRED)
  {
    assert PREFERRED[0][4] != PREFERRED[1][4];
  }

  // ---------------------------------------------------------------------
  // Preferred keys first
  // ---------------------------------------------------------------------

  /** `[x for x in xs if x in ys]` */
  function Within(xs: seq<string>, ys: seq<string>): (r: seq<string>)
    ensures |r| <= |xs|
    decreases |xs|
  {
    if xs == [] then []
    else
      var init, x := xs[..|xs| - 1], xs[|xs| - 1];
      Within(init, ys) + (if x in ys then [x] else [])
  }

  /** `[x for x in xs if x not in ys]` */
  function Absent(xs: seq<string>, ys: seq<string>): (r: seq<string>)
    ensures |r| <= |xs|
    decreases |xs|
  {
    if xs == [] then []
    else
      var init, x := xs[..|xs| - 1], xs[|xs| - 1];
      Absent(init, ys) + (if x !in ys then [x] else [])
  }

  /** The preferred keys that are present, in preferred order, then the other keys in their own order. */
  function PreferredFirst(ks: seq<string>): seq<string>
  {
    Within(PREFERRED, ks) + Absent(ks, PREFERRED)
  }

  /** `s[:n]` for a non-negative `n`. */
  function Take<T>(s: seq<T>, n: nat): (r: seq<T>)
    ensures |r| == if |s| <= n then |s| else n
  {
    if |s| <= n then s else s[..n]
  }

  /** The keys `pick_two` chooses, in the order it inserts them. */
  function Selection(ks: seq<string>): (sel: seq<string>)
    ensures |sel| <= PANELS
  {
    Take(PreferredFirst(ks), PANELS)
  }

  /** The two filters keep exactly the elements their conditions name. */
  lemma FilterMembers(xs: seq<string>, ys: seq<string>)
    ensures forall x :: x in Within(xs, ys) <==> x in xs && x in ys
    ensures forall x :: x in Absent(xs, ys) <==> x in xs && x !in ys
  {
    forall x {
      FilterHas(xs, ys, x);
    }
  }

  lemma {:induction false} FilterHas(xs: seq<string>, ys: seq<string>, x: string)
    ensures x in Within(xs, ys) <==> x in xs && x in ys
    ensures x in Absent(xs, ys) <==> x in xs && x !in ys
    decreases |xs|
  {
    if xs != [] {
      var init := xs[..|xs| - 1];
      FilterHas(init, ys, x);
      assert xs == init + [xs[|xs| - 1]];
    }
  }

  /** Between them the two filters keep every element once. */
  lemma {:induction false} SplitCount(xs: seq<string>, ys: seq<string>)
    ensures |Absent(xs, ys)| + |Within(xs, ys)| == |xs|
    decreases |xs|
  {
    if xs != [] {
      SplitCount(xs[..|xs| - 1], ys);
    }
  }

  /** Filtering a list of distinct elements leaves them distinct. */
  lemma {:induction false} FilterDistinct(xs: seq<string>, ys: seq<string>)
    requires Distinct(xs)
    ensures Distinct(Absent(xs, ys)) && Distinct(Within(xs, ys))
    decreases |xs|
  {
    if xs != [] {
      var init, x := xs[..|xs| - 1], xs[|xs| - 1];
      assert Distinct(init) by {
        forall i, j | 0 <= i < j < |init| ensures init[i] != init[j] {
          assert init[i] == xs[i] && init[j] == xs[j];
        }
      }
      FilterDistinct(init, ys);
      FilterMembers(init, ys);
      assert x !in init by {
        forall i | 0 <= i < |init| ensures init[i] != x {
          assert init[i] == xs[i];
        }
      }
      SnocDistinct(Absent(init, ys), if x !in ys then [x] else []);
      SnocDistinct(Within(init, ys), if x in ys then [x] else []);
    }
  }

  lemma SnocDistinct(a: seq<string>, b: seq<string>)
    requires Distinct(a) && |b| <= 1 && (forall x :: x in b ==> x !in a)
    ensures Distinct(a + b)
  {
    var c := a + b;
    forall i, j | 0 <= i < j < |c| ensures c[i] != c[j] {
      if j < |a| {
        assert c[i] == a[i] && c[j] == a[j];
      } else {
        assert c[i] == a[i] && c[j] in b;
      }
    }
  }

  lemma {:induction false} AbsentAppend(a: seq<string>, b: seq<string>, ys: seq<string>)
    ensures Absent(a + b, ys) == Absent(a, ys) + Absent(b, ys)
    decreases |b|
  {
    if b == [] {
      assert a + b == a;
    } else {
      var init := b[..|b| - 1];
      AbsentAppend(a, init, ys);
      assert (a + b)[..|a + b| - 1] == a + init;
    }
  }

  lemma {:induction false} DistinctCard(s: seq<string>)
    requires Distinct(s)
    ensures |set x | x in s| == |s|
    decreases |s|
  {
    if s != [] {
      var init, k := s[..|s| - 1], s[|s| - 1];
      DistinctCard(init);
      assert s == init + [k];
      assert (set x | x in s) == (set x | x in init) + {k};
      assert k !in init by {
        forall i | 0 <= i < |init| ensures init[i] != k {
          assert init[i] == s[i];
        }
      }
    }
  }

  lemma DisjointDistinct(a: seq<string>, b: seq<string>)
    requires Distinct(a) && Distinct(b) && (forall x :: x in b ==> x !in a)
    ensures Distinct(a + b)
  {
    var c := a + b;
    forall i, j | 0 <= i < j < |c| ensures c[i] != c[j] {
      if j < |a| {
        assert c[i] == a[i] && c[j] == a[j];
      } else if i >= |a| {
        assert c[i] == b[i - |a|] && c[j] == b[j - |a|];
      } else {
        assert c[i] == a[i] && c[j] == b[j - |a|];
        assert a[i] in a && b[j - |a|] in b;
      }
    }
  }

  /** Putting the preferred keys first neither loses nor duplicates a key. */
  lemma PreferredFirstPermutes(ks: seq<string>)
    requires Distinct(ks)
    ensures |PreferredFirst(ks)| == |ks|
    ensures Distinct(PreferredFirst(ks))
    ensures forall x :: x in PreferredFirst(ks) <==> x in ks
  {
    PreferredDistinct();
    FrontPermutes(PREFERRED, ks);
  }

  lemma FrontPermutes(pref: seq<string>, ks: seq<string>)
    requires Distinct(pref) && Distinct(ks)
    ensures |Within(pref, ks) + Absent(ks, pref)| == |ks|
    ensures Distinct(Within(pref, ks) + Absent(ks, pref))
    ensures forall x :: x in Within(pref, ks) + Absent(ks, pref) <==> x in ks
  {
    FilterDistinct(pref, ks);
    FilterDistinct(ks, pref);
    SplitCount(ks, pref);
    FilterMembers(pref, ks);
    FilterMembers(ks, pref);
    var p, w := Within(pref, ks), Within(ks, pref);
    assert (set x | x in p) == (set x | x in w);
    DistinctCard(p);
    DistinctCard(w);
    DisjointDistinct(p, Absent(ks, pref));
  }

  /**
   * `pick_two` chooses `min(2, len(files_map))` distinct keys of its input,
   * takes every preferred key that is present, and fills up with the other
   * keys in input order.
   */
  lemma SelectionShape(ks: seq<string>)
    requires Distinct(ks)
    ensures var sel := Selection(ks);
            && |sel| == (if |ks| < PANELS then |ks| else PANELS)
            && Distinct(sel)
            && (forall x :: x in sel ==> x in ks)
            && (forall p :: p in PREFERRED && p in ks ==> p in sel)
            && sel == Within(PREFERRED, ks) + Take(Absent(ks, PREFERRED), PANELS - |Within(PREFERRED, ks)|)
  {
    PreferredDistinct();
    FrontTaken(PREFERRED, ks, PANELS);
  }

  lemma FrontTaken(pref: seq<string>, ks: seq<string>, n: nat)
    requires Distinct(pref) && Distinct(ks) && |pref| <= n
    ensures var sel := Take(Within(pref, ks) + Absent(ks, pref), n);
            && |sel| == (if |ks| < n then |ks| else n)
            && Distinct(sel)
            && (forall x :: x in sel ==> x in ks)
            && (forall p :: p in pref && p in ks ==> p in sel)
            && sel == Within(pref, ks) + Take(Absent(ks, pref), n - |Within(pref, ks)|)
  {
    var w, a := Within(pref, ks), Absent(ks, pref);
    FrontPermutes(pref, ks);
    TakeDistinct(w + a, n);
    TakeAppend(w, a, n);
    var sel := w + Take(a, n - |w|);
    forall p | p in pref && p in ks ensures p in sel {
      FilterHas(pref, ks, p);
    }
  }

  /**
   * Laying out what `pick_two` chose in the preferred-first order changes
   * nothing: `reload` places the panels in the order `pick_two` chose them.
   */
  lemma ReloadOrderIsSelection(ks: seq<string>)
    requires Distinct(ks)
    ensures PreferredFirst(Selection(ks)) == Selection(ks)
    ensures Take(PreferredFirst(Selection(ks)), PANELS) == Selection(ks)
  {
    PreferredDistinct();
    FrontFixed(PREFERRED, ks, PANELS);
  }

  /**
   * After `reload` the viewer has a panel for exactly the logs `pick_two`
   * chose: the panels it kept, then the ones it created.
   */
  lemma ReloadShowsSelection(before: seq<string>, ks: seq<string>)
    requires Distinct(ks)
    ensures var sel := Selection(ks);
            var survivors := Within(before, sel);
            var first := Take(PreferredFirst(sel), PANELS);
            forall x :: x in survivors + Absent(first[..|first|], survivors) <==> x in sel
  {
    var sel := Selection(ks);
    var survivors := Within(before, sel);
    var first := Take(PreferredFirst(sel), PANELS);
    ReloadOrderIsSelection(ks);
    assert first[..|first|] == sel;
    forall x ensures x in survivors + Absent(sel, survivors) <==> x in sel {
      FilterHas(before, sel, x);
      FilterHas(sel, survivors, x);
    }
  }

  lemma FrontFixed(pref: seq<string>, ks: seq<string>, n: nat)
    requires Distinct(pref) && Distinct(ks) && |pref| <= n
    ensures var sel := Take(Within(pref, ks) + Absent(ks, pref), n);
            Within(pref, sel) + Absent(sel, pref) == sel
  {
    var w, a := Within(pref, ks), Absent(ks, pref);
    TakeAppend(w, a, n);
    var t := Take(a, n - |w|);
    forall x | x in t ensures x in a && x in ks {
      TakeSub(a, n - |w|, x);
      FilterHas(ks, pref, x);
    }
    FixedFront(pref, ks, t);
    FixedRest(pref, ks, t);
  }

  /** Re-filtering the selection for preferred keys gives back its preferred part. */
  lemma FixedFront(pref: seq<string>, ks: seq<string>, t: seq<string>)
    requires forall x :: x in t ==> x in ks
    ensures Within(pref, Within(pref, ks) + t) == Within(pref, ks)
  {
    var sel := Within(pref, ks) + t;
    forall x | x in pref ensures x in sel <==> x in ks {
      FilterHas(pref, ks, x);
    }
    WithinSame(pref, sel, ks);
  }

  /** Re-filtering the selection for the other keys gives back its other part. */
  lemma FixedRest(pref: seq<string>, ks: seq<string>, t: seq<string>)
    requires forall x :: x in t ==> x in Absent(ks, pref)
    ensures Absent(Within(pref, ks) + t, pref) == t
  {
    var w := Within(pref, ks);
    AbsentAppend(w, t, pref);
    forall x | x in w ensures x in pref {
      FilterHas(pref, ks, x);
    }
    AbsentNone(w, pref);
    forall x | x in t ensures x !in pref {
      FilterHas(ks, pref, x);
    }
    AbsentAll(t, pref);
    assert [] + t == t;
  }

  lemma {:induction false} WithinSame(xs: seq<string>, ys: seq<string>, zs: seq<string>)
    requires forall x :: x in xs ==> (x in ys <==> x in zs)
    ensures Within(xs, ys) == Within(xs, zs)
    decreases |xs|
  {
    if xs != [] {
      var init := xs[..|xs| - 1];
      assert forall x :: x in init ==> x in xs;
      WithinSame(init, ys, zs);
    }
  }

  lemma {:induction false} AbsentNone(xs: seq<string>, ys: seq<string>)
    requires forall x :: x in xs ==> x in ys
    ensures Absent(xs, ys) == []
    decreases |xs|
  {
    if xs != [] {
      var init := xs[..|xs| - 1];
      assert forall x :: x in init ==> x in xs;
      AbsentNone(init, ys);
    }
  }

  lemma {:induction false} AbsentAll(xs: seq<string>, ys: seq<string>)
    requires forall x :: x in xs ==> x !in ys
    ensures Absent(xs, ys) == xs
    decreases |xs|
  {
    if xs != [] {
      var init := xs[..|xs| - 1];
      assert forall x :: x in init ==> x in xs;
      AbsentAll(init, ys);
      assert xs == init + [xs[|xs| - 1]];
    }
  }

  lemma TakeSub(s: seq<string>, n: nat, x: string)
    requires x in Take(s, n)
    ensures x in s
  {
    var i :| 0 <= i < |Take(s, n)| && Take(s, n)[i] == x;
    assert s[i] == x;
  }

  /** A prefix of a list of distinct elements is one too, and holds nothing else. */
  lemma TakeDistinct(s: seq<string>, n: nat)
    requires Distinct(s)
    ensures Distinct(Take(s, n)) && forall x :: x in Take(s, n) ==> x in s
  {
    var t := Take(s, n);
    forall i | 0 <= i < |t| ensures t[i] == s[i] && t[i] in s {
    }
  }

  /** Taking `n` from `a + b` takes all of a short `a` and the rest from `b`. */
  lemma TakeAppend(a: seq<string>, b: seq<string>, n: nat)
    requires |a| <= n
    ensures Take(a + b, n) == a + Take(b, n - |a|)
  {
    if |a + b| > n {
      assert (a + b)[..n] == a + b[..n - |a|];
    }
  }

  // ---------------------------------------------------------------------
  // `pick_two`
  // ---------------------------------------------------------------------

  /** Every entry of `chosen` is the entry of `files` under the same key. */
  ghost predicate Agrees<V>(chosen: Dict<string, V>, files: Dict<string, V>)
  {
    forall k :: k in chosen.entries ==> k in files.entries && chosen.entries[k] == files.entries[k]
  }

  lemma PutAgrees(chosen: Dict<string, string>, files: Dict<string, string>, k: string)
    requires Agrees(chosen, files) && chosen.Valid() && k in files.entries
    ensures Agrees(chosen.Put(k, files.entries[k]), files)
  {
  }

  /** `pick_two(files_map)` */
  method PickTwo(files: Dict<string, string>) returns (chosen: Dict<string, string>)
    requires files.Valid()
    ensures chosen.Valid()
    ensures chosen.keys == Selection(files.keys)
    ensures Agrees(chosen, files)
  {
    chosen := TakePreferred(files);
    if chosen.Len() < PANELS {
      chosen := FillUp(files, chosen);
    } else {
      FillFull(files.keys, chosen.keys);
    }
  }

  /** The first loop of `pick_two`: the preferred keys that are present, in preferred order. */
  method TakePreferred(files: Dict<string, string>) returns (chosen: Dict<string, string>)
    requires files.Valid()
    ensures chosen.Valid()
    ensures chosen.keys == Within(PREFERRED, files.keys)
    ensures Agrees(chosen, files)
  {
    chosen := Empty();
    for i := 0 to |PREFERRED|
      invariant chosen.Valid()
      invariant chosen.keys == Within(PREFERRED[..i], files.keys)
      invariant Agrees(chosen, files)
    {
      var p := PREFERRED[i];
      TakeStep(files, chosen, i);
      if p in files.entries && chosen.Len() < PANELS {
        PutAgrees(chosen, files, p);
        chosen := chosen.Put(p, files.entries[p]);
      }
    }
    assert PREFERRED[..|PREFERRED|] == PREFERRED;
  }

  /** The second loop of `pick_two`: the other keys in input order, until two are chosen. */
  method FillUp(files: Dict<string, string>, pre: Dict<string, string>) returns (chosen: Dict<string, string>)
    requires files.Valid() && pre.Valid() && Agrees(pre, files)
    requires pre.keys == Within(PREFERRED, files.keys) && pre.Len() < PANELS
    ensures chosen.Valid()
    ensures chosen.keys == Selection(files.keys)
    ensures Agrees(chosen, files)
  {
    chosen := pre;
    ghost var pp := pre.keys;
    assert files.keys[..0] == [];
    for i := 0 to |files.keys|
      invariant chosen.Valid()
      invariant chosen.keys == pp + Absent(files.keys[..i], PREFERRED)
      invariant |chosen.keys| < PANELS
      invariant Agrees(chosen, files)
    {
      var k := files.keys[i];
      FillTurn(files, pp, chosen, i);
      if k !in chosen.entries {
        chosen := chosen.Put(k, files.entries[k]);
      }
      if chosen.Len() >= PANELS {
        FillDone(files.keys, chosen.keys, i + 1);
        break;
      }
    }
    if chosen.Len() < PANELS {
      FillAll(files.keys, chosen.keys);
    }
  }

  /** A turn of the second loop keeps its invariant, or ends it with two keys chosen. */
  lemma FillTurn(files: Dict<string, string>, pp: seq<string>, chosen: Dict<string, string>, i: nat)
    requires files.Valid() && i < |files.keys| && pp == Within(PREFERRED, files.keys)
    requires chosen.Valid() && chosen.keys == pp + Absent(files.keys[..i], PREFERRED)
    requires |chosen.keys| < PANELS && Agrees(chosen, files)
    ensures files.keys[i] in files.entries
    ensures var k := files.keys[i];
            var next := if k !in chosen.entries then chosen.Put(k, files.entries[k]) else chosen;
            && next.Valid() && Agrees(next, files)
            && next.keys == pp + Absent(files.keys[..i + 1], PREFERRED)
            && |next.keys| <= PANELS
  {
    var k := files.keys[i];
    ValidDistinct(files);
    FillStep(files.keys, pp, chosen, i);
    if k !in chosen.entries {
      PutAgrees(chosen, files, k);
    }
  }

  /** A turn of the first loop: the preferred key is new, and it is added exactly when it is present. */
  lemma TakeStep(files: Dict<string, string>, chosen: Dict<string, string>, i: nat)
    requires files.Valid() && chosen.Valid() && i < |PREFERRED|
    requires chosen.keys == Within(PREFERRED[..i], files.keys)
    ensures chosen.Len() < PANELS
    ensures PREFERRED[i] !in chosen.entries
    ensures PREFERRED[i] in files.entries <==> PREFERRED[i] in files.keys
    ensures Within(PREFERRED[..i + 1], files.keys) == chosen.keys + (if PREFERRED[i] in files.keys then [PREFERRED[i]] else [])
  {
    KeysListed(files);
    KeysListed(chosen);
    FilterHas(PREFERRED[..i], files.keys, PREFERRED[i]);
    assert PREFERRED[..i + 1][..i] == PREFERRED[..i];
    PreferredDistinct();
    assert PREFERRED[i] !in PREFERRED[..i];
  }

  /** A turn of the second loop: `k not in chosen` is `k not in preferred`, since the keys are distinct. */
  lemma FillStep(ks: seq<string>, pp: seq<string>, chosen: Dict<string, string>, i: nat)
    requires Distinct(ks) && i < |ks| && pp == Within(PREFERRED, ks)
    requires chosen.Valid() && chosen.keys == pp + Absent(ks[..i], PREFERRED)
    ensures ks[i] in chosen.entries <==> ks[i] in PREFERRED
    ensures pp + Absent(ks[..i + 1], PREFERRED) == chosen.keys + (if ks[i] !in PREFERRED then [ks[i]] else [])
  {
    var k, before := ks[i], ks[..i];
    KeysListed(chosen);
    assert k in chosen.entries <==> k in pp || k in Absent(before, PREFERRED);
    FilterHas(PREFERRED, ks, k);
    assert k in pp <==> k in PREFERRED;
    assert k !in before by {
      forall j | 0 <= j < i ensures before[j] != k {
        assert before[j] == ks[j];
      }
    }
    FilterHas(before, PREFERRED, k);
    assert k !in Absent(before, PREFERRED);
    AbsentSnoc(ks, PREFERRED, i);
    var a, tail := Absent(before, PREFERRED), if k !in PREFERRED then [k] else [];
    Assoc(pp, a, tail);
  }

  lemma Assoc(a: seq<string>, b: seq<string>, c: seq<string>)
    ensures a + (b + c) == (a + b) + c
  {
  }

  lemma AbsentSnoc(xs: seq<string>, ys: seq<string>, i: nat)
    requires i < |xs|
    ensures Absent(xs[..i + 1], ys) == Absent(xs[..i], ys) + (if xs[i] !in ys then [xs[i]] else [])
  {
    assert xs[..i + 1][..i] == xs[..i];
  }

  /** Stopping at the second key chooses the first two of the preferred-first order. */
  lemma FillDone(ks: seq<string>, keys: seq<string>, i: nat)
    requires i <= |ks| && keys == Within(PREFERRED, ks) + Absent(ks[..i], PREFERRED)
    requires PANELS <= |keys| <= PANELS
    ensures keys == Selection(ks)
  {
    FillCut(PREFERRED, ks, keys, i, PANELS);
  }

  lemma FillCut(pref: seq<string>, ks: seq<string>, keys: seq<string>, i: nat, n: nat)
    requires i <= |ks| && keys == Within(pref, ks) + Absent(ks[..i], pref) && |keys| == n
    ensures keys == Take(Within(pref, ks) + Absent(ks, pref), n)
  {
    var w, a, b := Within(pref, ks), Absent(ks[..i], pref), Absent(ks[i..], pref);
    assert ks[..i] + ks[i..] == ks;
    AbsentAppend(ks[..i], ks[i..], pref);
    Assoc(w, a, b);
    TakeAppend(keys, b, n);
    assert Take(b, 0) == [];
  }

  /** The preferred keys present fill both panels on their own. */
  lemma FillFull(ks: seq<string>, pp: seq<string>)
    requires pp == Within(PREFERRED, ks) && |pp| >= PANELS
    ensures pp == Selection(ks)
  {
  }

  /** Running out of keys with fewer than two chosen chooses them all. */
  lemma FillAll(ks: seq<string>, keys: seq<string>)
    requires keys == Within(PREFERRED, ks) + Absent(ks[..|ks|], PREFERRED) && |keys| < PANELS
    ensures keys == Selection(ks)
  {
    assert ks[..|ks|] == ks;
  }

  /** The keys of a valid dict are distinct. */
  lemma ValidDistinct(d: Dict<string, string>)
    requires d.Valid()
    ensures Distinct(d.keys)
  {
    KeysDistinct(d);
  }

  // ---------------------------------------------------------------------
  // `App.reload`
  // ---------------------------------------------------------------------

  /** A `DevicePanel` as far as the layout is concerned: its title, the log it shows, its grid column. */
  datatype Panel = Panel(title: string, csvPath: string, column: nat)

  /** The panel `reload` creates for key `k` in column `col`: the key with underscores shown as spaces. */
  function NewPanel(k: string, path: string, col: nat): (p: Panel)
    ensures |p.title| == |k| && forall i :: 0 <= i < |k| ==> p.title[i] == (if k[i] == '_' then ' ' else k[i])
    ensures p.csvPath == path && p.column == col
  {
    Panel(Replace(k, '_', ' '), path, col)
  }

  /** `keys` in `reload`: the preferred keys of `chosen` first, then the rest in insertion order. */
  function ReloadOrder(chosen: Dict<string, string>): (order: seq<string>)
    ensures forall x :: x in order <==> x in chosen.keys
  {
    FilterMembers(PREFERRED, chosen.keys);
    FilterMembers(chosen.keys, PREFERRED);
    PreferredFirst(chosen.keys)
  }

  /**
   * After `turns` turns of the layout loop over `first`: the surviving panels
   * are as they were, and each key of `first` that had no panel has a new one
   * in the column of its position, appended in that order.
   */
  ghost predicate LaidOut(panels: Dict<string, Panel>, survivors: seq<string>, before: map<string, Panel>,
                          first: seq<string>, files: Dict<string, string>, turns: nat)
  {
    && turns <= |first|
    && panels.Valid()
    && panels.keys == survivors + Absent(first[..turns], survivors)
    && (forall k :: k in survivors ==> k in before && k in panels.entries && panels.entries[k] == before[k])
    && (forall c :: 0 <= c < turns && first[c] !in survivors ==>
          first[c] in files.entries && first[c] in panels.entries
          && panels.entries[first[c]] == NewPanel(first[c], files.entries[first[c]], c))
  }

  class App {
    var panels: Dict<string, Panel>

    constructor ()
      ensures panels == Empty()
    {
      panels := Empty();
    }

    /**
     * `App.reload()` on the listing `files`: pick two logs, drop the panels of
     * logs no longer chosen (the others keep their order, title, path and
     * column), then give each chosen log without a panel a new one in the
     * column of its place in the reload order.
     */
    method Reload(files: Dict<string, string>)
      requires files.Valid() && panels.Valid()
      modifies this
      ensures var sel := Selection(files.keys);
              LaidOut(panels, Within(old(panels.keys), sel), old(panels.entries),
                      Take(PreferredFirst(sel), PANELS), files, |Take(PreferredFirst(sel), PANELS)|)
    {
      var chosen := PickTwo(files);
      ghost var before := panels;
      RemoveStale(chosen);
      LayOut(files, chosen, before);
    }

    /** The first loop of `reload`: `del self.panels[k]` for every key no longer chosen. */
    method RemoveStale(chosen: Dict<string, string>)
      requires panels.Valid() && chosen.Valid()
      modifies this
      ensures Pruned(panels, old(panels), Within(old(panels.keys), chosen.keys))
    {
      var ps := panels;
      var current := ps.keys;
      assert current[..0] == [] && current[0..] == current;
      for j := 0 to |current|
        invariant Pruned(ps, old(panels), Within(current[..j], chosen.keys) + current[j..])
      {
        var k := current[j];
        PruneStep(ps, old(panels), chosen, current, j);
        if k !in chosen.entries {
          ps := ps.Remove(k);
        }
      }
      PruneEnd(ps.keys, current, chosen.keys);
      panels := ps;
    }

    /** The second loop of `reload`: a new panel, in the column of its place, for each chosen key without one. */
    method LayOut(files: Dict<string, string>, chosen: Dict<string, string>, ghost before: Dict<string, Panel>)
      requires panels.Valid() && Agrees(panels, before) && chosen.Valid() && Agrees(chosen, files)
      modifies this
      ensures LaidOut(panels, old(panels.keys), before.entries, Take(ReloadOrder(chosen), PANELS), files,
                      |Take(ReloadOrder(chosen), PANELS)|)
    {
      var keys := ReloadOrder(chosen);
      var first := Take(keys, PANELS);
      LayoutStart(panels, before, chosen, files, first);
      Place(first, files, chosen, before.entries);
    }

    /** `for col, k in enumerate(first)`: a panel for each key of `first` that has none. */
    method Place(first: seq<string>, files: Dict<string, string>, chosen: Dict<string, string>, ghost before: map<string, Panel>)
      requires Laying(panels, panels.keys, before, first, files, chosen, 0)
      modifies this
      ensures LaidOut(panels, old(panels.keys), before, first, files, |first|)
    {
      var ps := panels;
      var col := 0;
      for t := 0 to |first|
        invariant col == t
        invariant Laying(ps, old(panels.keys), before, first, files, chosen, t)
      {
        var titleKey := first[t];
        LayoutStep(ps, old(panels.keys), before, first, files, chosen, t);
        if titleKey !in ps.entries {
          ps := ps.Put(titleKey, NewPanel(titleKey, chosen.entries[titleKey], col));
        }
        col := col + 1;
      }
      panels := ps;
    }
  }

  lemma PruneEnd(keys: seq<string>, current: seq<string>, ck: seq<string>)
    requires keys == Within(current[..|current|], ck) + current[|current|..]
    ensures keys == Within(current, ck)
  {
    assert current[..|current|] == current && current[|current|..] == [];
  }

  /** The keys `reload` lays out are distinct keys of `chosen`. */
  lemma OrderDistinct(chosen: Dict<string, string>)
    requires chosen.Valid()
    ensures Distinct(Take(ReloadOrder(chosen), PANELS))
    ensures forall x :: x in Take(ReloadOrder(chosen), PANELS) ==> x in chosen.keys
  {
    ValidDistinct(chosen);
    PreferredFirstPermutes(chosen.keys);
    TakeDistinct(PreferredFirst(chosen.keys), PANELS);
  }

  /** A turn of the pruning loop: the key keeps its panel exactly when it is still chosen. */
  lemma PruneStep(panels: Dict<string, Panel>, before: Dict<string, Panel>, chosen: Dict<string, string>,
                  current: seq<string>, j: nat)
    requires j < |current| && chosen.Valid()
    requires Pruned(panels, before, Within(current[..j], chosen.keys) + current[j..])
    ensures current[j] in panels.entries
    ensures Pruned(if current[j] in chosen.entries then panels else panels.Remove(current[j]), before,
                   Within(current[..j + 1], chosen.keys) + current[j + 1..])
  {
    var k, w, rest := current[j], Within(current[..j], chosen.keys), current[j + 1..];
    SliceAt(current, j);
    KeyListed(chosen, k);
    WithinSnoc(current, chosen.keys, j);
    ListedAt(panels, w, k, rest);
    if k in chosen.keys {
      PruneKeep(panels, before, w, k, rest, Within(current[..j + 1], chosen.keys));
    } else {
      PruneDrop(panels, before, w, k, rest, Within(current[..j + 1], chosen.keys));
    }
  }

  lemma ListedAt<V>(d: Dict<string, V>, w: seq<string>, k: string, rest: seq<string>)
    requires d.Valid() && d.keys == w + ([k] + rest)
    ensures k in d.entries
  {
    assert d.keys[|w|] == k;
  }

  lemma SliceAt<T>(s: seq<T>, j: nat)
    requires j < |s|
    ensures s[j..] == [s[j]] + s[j + 1..]
  {
  }

  lemma PruneKeep(panels: Dict<string, Panel>, before: Dict<string, Panel>, w: seq<string>, k: string,
                  rest: seq<string>, w1: seq<string>)
    requires Pruned(panels, before, w + ([k] + rest)) && w1 == w + [k]
    ensures Pruned(panels, before, w1 + rest)
  {
    Assoc(w, [k], rest);
  }

  /** The panels after a turn of the pruning loop: valid, inherited from `before`, listed as `keys`. */
  ghost predicate Pruned(panels: Dict<string, Panel>, before: Dict<string, Panel>, keys: seq<string>)
  {
    panels.Valid() && Agrees(panels, before) && panels.keys == keys
  }

  lemma PruneDrop(panels: Dict<string, Panel>, before: Dict<string, Panel>, w: seq<string>, k: string,
                  rest: seq<string>, w1: seq<string>)
    requires Pruned(panels, before, w + ([k] + rest)) && w1 == w
    ensures k in panels.entries
    ensures Pruned(panels.Remove(k), before, w1 + rest)
  {
    assert panels.keys[|w|] == k;
    RemoveAt(panels, |w|);
    assert panels.keys[..|w|] == w && panels.keys[|w| + 1..] == rest;
  }

  lemma WithinSnoc(xs: seq<string>, ys: seq<string>, i: nat)
    requires i < |xs|
    ensures Within(xs[..i + 1], ys) == Within(xs[..i], ys) + (if xs[i] in ys then [xs[i]] else [])
  {
    assert xs[..i + 1][..i] == xs[..i];
  }

  /** `LaidOut` together with what the layout loop knows of `first` and `chosen`. */
  ghost predicate Laying(panels: Dict<string, Panel>, survivors: seq<string>, before: map<string, Panel>,
                         first: seq<string>, files: Dict<string, string>, chosen: Dict<string, string>, turns: nat)
  {
    && LaidOut(panels, survivors, before, first, files, turns)
    && Distinct(first) && chosen.Valid() && Agrees(chosen, files)
    && (forall x :: x in first ==> x in chosen.keys)
  }

  /** The layout loop starts from the surviving panels, and lays out distinct keys of `chosen`. */
  lemma LayoutStart(panels: Dict<string, Panel>, before: Dict<string, Panel>, chosen: Dict<string, string>,
                    files: Dict<string, string>, first: seq<string>)
    requires panels.Valid() && Agrees(panels, before) && chosen.Valid() && Agrees(chosen, files)
    requires first == Take(ReloadOrder(chosen), PANELS)
    ensures Laying(panels, panels.keys, before.entries, first, files, chosen, 0)
  {
    OrderDistinct(chosen);
    KeysListed(panels);
    assert first[..0] == [];
    assert panels.keys + [] == panels.keys;
  }

  /** A turn of the layout loop: a key of `first` gets a new panel exactly when it had none. */
  lemma LayoutStep(panels: Dict<string, Panel>, survivors: seq<string>, before: map<string, Panel>,
                   first: seq<string>, files: Dict<string, string>, chosen: Dict<string, string>, t: nat)
    requires Laying(panels, survivors, before, first, files, chosen, t) && t < |first|
    ensures panels.Valid() && first[t] in chosen.entries
    ensures var k := first[t];
            var next := if k !in panels.entries then panels.Put(k, NewPanel(k, chosen.entries[k], t)) else panels;
            Laying(next, survivors, before, first, files, chosen, t + 1)
  {
    var k := first[t];
    KeysListed(chosen);
    assert k in first;
    assert k !in first[..t] by {
      forall c | 0 <= c < t ensures first[..t][c] != k {
        assert first[..t][c] == first[c];
      }
    }
    FilterHas(first[..t], survivors, k);
    AbsentSnoc(first, survivors, t);
    KeysListed(panels);
    if k in panels.entries {
      LayoutKnown(panels, survivors, before, first, files, t);
    } else {
      LayoutNew(panels, survivors, before, first, files, t);
    }
  }

  /** A key that already has a panel is a survivor, and its panel stays. */
  lemma LayoutKnown(panels: Dict<string, Panel>, survivors: seq<string>, before: map<string, Panel>,
                    first: seq<string>, files: Dict<string, string>, t: nat)
    requires LaidOut(panels, survivors, before, first, files, t) && t < |first|
    requires first[t] in survivors
    requires Absent(first[..t + 1], survivors) == Absent(first[..t], survivors)
    ensures LaidOut(panels, survivors, before, first, files, t + 1)
  {
  }

  /** A key without a panel gets a new one in column `t`, appended after the others. */
  lemma LayoutNew(panels: Dict<string, Panel>, survivors: seq<string>, before: map<string, Panel>,
                  first: seq<string>, files: Dict<string, string>, t: nat)
    requires LaidOut(panels, survivors, before, first, files, t) && t < |first|
    requires first[t] in files.entries && first[t] !in survivors && first[t] !in panels.entries
    requires Absent(first[..t + 1], survivors) == Absent(first[..t], survivors) + [first[t]]
    requires forall c :: 0 <= c < t ==> first[c] != first[t]
    ensures LaidOut(panels.Put(first[t], NewPanel(first[t], files.entries[first[t]], t)), survivors, before, first, files, t + 1)
  {
    var k := first[t];
    var np := panels.Put(k, NewPanel(k, files.entries[k], t));
    Assoc(survivors, Absent(first[..t], survivors), [k]);
    assert np.keys == survivors + Absent(first[..t + 1], survivors);
    forall s | s in survivors
      ensures s in before && s in np.entries && np.entries[s] == before[s]
    {
      assert s != k;
    }
    forall c | 0 <= c < t + 1 && first[c] !in survivors
      ensures first[c] in files.entries && first[c] in np.entries
              && np.entries[first[c]] == NewPanel(first[c], files.entries[first[c]], c)
    {
      if c < t {
        assert first[c] != k;
      }
    }
  }
}

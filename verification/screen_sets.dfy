/** The screen layout of the framebuffer (rfb/ScreenSet.h): an ordered list of
    screens, each with a 32-bit id, a rectangle and 32-bit flags. */
module ScreenSets {
  import opened Region

  const MaxScreens: int := 255

  datatype Screen = Screen(id: nat, dimensions: Rect, flags: nat)

  /** Screen(id, x, y, w, h, flags): the rectangle spans (x, y) to (x + w, y + h). */
  function MakeScreen(id: nat, x: int, y: int, w: int, h: int, flags: nat): (s: Screen)
    ensures s.dimensions.Width() == w && s.dimensions.Height() == h
    ensures s.dimensions.tlx == x && s.dimensions.tly == y
    ensures s.id == id && s.flags == flags
  {
    Screen(id, XYWH(x, y, w, h), flags)
  }

  datatype ScreenSet = ScreenSet(screens: seq<Screen>)

  predicate SortedById(s: seq<Screen>) {
    forall i, j :: 0 <= i < j < |s| ==> s[i].id <= s[j].id
  }

  /** Place `x` after every screen whose id is not larger than its own. */
  function Insert(s: seq<Screen>, x: Screen): (r: seq<Screen>)
    ensures multiset(r) == multiset(s) + multiset{x}
    ensures |r| == |s| + 1
  {
    if |s| == 0 then [x]
    else if x.id < s[0].id then
      [x] + s
    else
      assert s == [s[0]] + s[1..];
      [s[0]] + Insert(s[1..], x)
  }

  lemma {:induction false} InsertElems(s: seq<Screen>, x: Screen)
    ensures forall y :: y in Insert(s, x) <==> y in s || y == x
  {
    if |s| > 0 && x.id >= s[0].id {
      InsertElems(s[1..], x);
      assert s == [s[0]] + s[1..];
    }
  }

  lemma {:induction false} InsertSorted(s: seq<Screen>, x: Screen)
    requires SortedById(s)
    ensures SortedById(Insert(s, x))
  {
    if |s| > 0 && x.id >= s[0].id {
      var t := Insert(s[1..], x);
      InsertSorted(s[1..], x);
      InsertElems(s[1..], x);
      assert forall y :: y in s[1..] ==> s[0].id <= y.id;
      assert forall k :: 0 <= k < |t| ==> t[k] in t;
      assert Insert(s, x) == [s[0]] + t;
    }
  }

  function SortById(s: seq<Screen>): (r: seq<Screen>)
    ensures multiset(r) == multiset(s)
    ensures SortedById(r)
  {
    if |s| == 0 then []
    else
      assert s == s[..|s| - 1] + [s[|s| - 1]];
      var t := SortById(s[..|s| - 1]);
      InsertSorted(t, s[|s| - 1]);
      Insert(t, s[|s| - 1])
  }

  /** ScreenSet::add_screen: append, then sort by id.  std::sort leaves the
      order among screens with equal ids unspecified; the model keeps it. */
  function AddScreen(ss: ScreenSet, screen: Screen): (r: ScreenSet)
    ensures SortedById(r.screens)
    ensures multiset(r.screens) == multiset(ss.screens) + multiset{screen}
  {
    ScreenSet(SortById(ss.screens + [screen]))
  }

  /** ScreenSet::remove_screen: drop every screen with the id, keeping order. */
  function RemoveScreen(ss: ScreenSet, id: nat): (r: ScreenSet)
    ensures forall k :: 0 <= k < |r.screens| ==> r.screens[k].id != id
    ensures forall k :: 0 <= k < |ss.screens| && ss.screens[k].id != id ==> ss.screens[k] in r.screens
    ensures forall y :: multiset(r.screens)[y] == if y.id == id then 0 else multiset(ss.screens)[y]
    ensures SortedById(ss.screens) ==> SortedById(r.screens)
  {
    WithoutKeeps(ss.screens, id);
    WithoutSorted(ss.screens, id);
    ScreenSet(Without(ss.screens, id))
  }

  function Without(s: seq<Screen>, id: nat): (r: seq<Screen>)
    ensures forall k :: 0 <= k < |r| ==> r[k].id != id
    ensures forall y {:trigger multiset(r)[y]} :: multiset(r)[y] == if y.id == id then 0 else multiset(s)[y]
  {
    if |s| == 0 then []
    else
      assert s == [s[0]] + s[1..];
      var t := Without(s[1..], id);
      if s[0].id == id then t else [s[0]] + t
  }

  /** Removal works piecewise: what survives of a + b is what survives of a
      followed by what survives of b, so the survivors keep their order. */
  lemma {:induction false} WithoutAppend(a: seq<Screen>, b: seq<Screen>, id: nat)
    ensures Without(a + b, id) == Without(a, id) + Without(b, id)
  {
    if |a| == 0 {
      assert a + b == b;
    } else {
      var ab := a + b;
      assert ab[0] == a[0] && ab[1..] == a[1..] + b;
      WithoutAppend(a[1..], b, id);
      var rest := Without(a[1..], id) + Without(b, id);
      assert Without(ab, id) == if a[0].id == id then rest else [a[0]] + rest;
      assert Without(a, id) == if a[0].id == id then Without(a[1..], id) else [a[0]] + Without(a[1..], id);
    }
  }

  /** remove_screen keeps the remaining screens in their original order: the
      layout a + b loses its screens with the id piece by piece. */
  lemma RemoveKeepsOrder(a: seq<Screen>, b: seq<Screen>, id: nat)
    ensures RemoveScreen(ScreenSet(a + b), id).screens
            == RemoveScreen(ScreenSet(a), id).screens + RemoveScreen(ScreenSet(b), id).screens
  {
    WithoutAppend(a, b, id);
  }

  /** A layout without the id is left exactly as it is. */
  lemma {:induction false} RemoveAbsent(s: seq<Screen>, id: nat)
    requires forall k :: 0 <= k < |s| ==> s[k].id != id
    ensures RemoveScreen(ScreenSet(s), id) == ScreenSet(s)
  {
    if |s| > 0 {
      RemoveAbsent(s[1..], id);
      assert s == [s[0]] + s[1..];
    }
  }

  /** Every screen with another id survives, as often as it occurs, and in
      its place: the survivors before it come from the screens before it and
      the survivors after it from the screens after it. */
  lemma WithoutKeeps(s: seq<Screen>, id: nat)
    ensures forall k :: 0 <= k < |s| && s[k].id != id ==> s[k] in Without(s, id)
    ensures forall y: Screen :: y.id != id ==> multiset(Without(s, id))[y] == multiset(s)[y]
    ensures forall k :: 0 <= k < |s| && s[k].id != id ==>
              Without(s, id) == Without(s[..k], id) + [s[k]] + Without(s[k + 1..], id)
  {
    forall k | 0 <= k < |s| && s[k].id != id
      ensures Without(s, id) == Without(s[..k], id) + [s[k]] + Without(s[k + 1..], id)
      ensures s[k] in Without(s, id)
    {
      WithoutSplitAt(s, id, k);
    }
  }

  /** One surviving screen: the result splits around it. */
  lemma WithoutSplitAt(s: seq<Screen>, id: nat, k: int)
    requires 0 <= k < |s| && s[k].id != id
    ensures Without(s, id) == Without(s[..k], id) + [s[k]] + Without(s[k + 1..], id)
    ensures s[k] in Without(s, id)
  {
    assert s == s[..k] + ([s[k]] + s[k + 1..]);
    WithoutAppend(s[..k], [s[k]] + s[k + 1..], id);
    WithoutAppend([s[k]], s[k + 1..], id);
    assert [s[k]][1..] == [];
    var w := Without(s[..k], id);
    assert Without(s, id)[|w|] == s[k];
  }

  /** The relative order of the survivors is kept. */
  lemma {:induction false} WithoutSorted(s: seq<Screen>, id: nat)
    ensures SortedById(s) ==> SortedById(Without(s, id))
  {
    if |s| > 0 && SortedById(s) {
      assert s == [s[0]] + s[1..];
      var t := Without(s[1..], id);
      assert SortedById(s[1..]);
      WithoutSorted(s[1..], id);
      if s[0].id != id {
        forall k | 0 <= k < |t| ensures s[0].id <= t[k].id {
          assert t[k] in multiset(t);
          assert t[k] in multiset(s[1..]);
          assert t[k] in s[1..];
        }
      }
    }
  }

  /** Removing a screen just added leaves what removing the id from the
      original (sorted) list leaves: the insertion disturbs nothing else. */
  lemma {:induction false} RemoveAfterAdd(s: seq<Screen>, x: Screen)
    requires SortedById(s)
    ensures Without(Insert(s, x), x.id) == Without(s, x.id)
  {
    if |s| == 0 {
    } else if x.id < s[0].id {
      assert Insert(s, x) == [x] + s;
      assert ([x] + s)[1..] == s;
    } else {
      assert s == [s[0]] + s[1..];
      RemoveAfterAdd(s[1..], x);
      assert ([s[0]] + Insert(s[1..], x))[1..] == Insert(s[1..], x);
    }
  }

  lemma {:induction false} SortedSortIsIdentity(s: seq<Screen>)
    requires SortedById(s)
    ensures SortById(s) == s
  {
    if |s| > 0 {
      var p := s[..|s| - 1];
      assert SortedById(p);
      SortedSortIsIdentity(p);
      assert p + [s[|s| - 1]] == s;
      InsertLast(p, s[|s| - 1]);
    }
  }

  lemma {:induction false} InsertLast(s: seq<Screen>, x: Screen)
    requires forall k :: 0 <= k < |s| ==> s[k].id <= x.id
    ensures Insert(s, x) == s + [x]
  {
    if |s| > 0 {
      InsertLast(s[1..], x);
      assert [s[0]] + (s[1..] + [x]) == s + [x];
    }
  }

  /** On a sorted layout, removing the id of a screen just added gives the
      same layout as removing it from the original. */
  lemma AddThenRemove(ss: ScreenSet, screen: Screen)
    requires SortedById(ss.screens)
    ensures RemoveScreen(AddScreen(ss, screen), screen.id) == RemoveScreen(ss, screen.id)
  {
    SortedSortIsIdentity(ss.screens);
    assert ss.screens + [screen] == ss.screens[..|ss.screens + [screen]| - 1] + [screen];
    assert (ss.screens + [screen])[..|ss.screens|] == ss.screens;
    RemoveAfterAdd(ss.screens, screen);
  }

  /** The declarative layout rule: one to 255 screens, each non-empty and
      inside the framebuffer, no two with the same id.  Overlap is allowed. */
  predicate ValidLayout(ss: ScreenSet, fbWidth: int, fbHeight: int) {
    var s := ss.screens;
    1 <= |s| <= MaxScreens
    && (forall k :: 0 <= k < |s| ==> !s[k].dimensions.IsEmpty())
    && (forall k :: 0 <= k < |s| ==> s[k].dimensions.EnclosedBy(XYWH(0, 0, fbWidth, fbHeight)))
    && (forall i, j :: 0 <= i < j < |s| ==> s[i].id != s[j].id)
  }

  /** ScreenSet::validate: scan the screens, remembering the ids seen. */
  method Validate(ss: ScreenSet, fbWidth: int, fbHeight: int) returns (ok: bool)
    ensures ok <==> ValidLayout(ss, fbWidth, fbHeight)
  {
    var s := ss.screens;
    if |s| == 0 {
      return false;
    }
    if |s| > MaxScreens {
      return false;
    }
    var fb := XYWH(0, 0, fbWidth, fbHeight);
    var seen: set<nat> := {};
    var k := 0;
    while k < |s|
      invariant 0 <= k <= |s|
      invariant seen == set i | 0 <= i < k :: s[i].id
      invariant forall i :: 0 <= i < k ==> !s[i].dimensions.IsEmpty() && s[i].dimensions.EnclosedBy(fb)
      invariant forall i, j :: 0 <= i < j < k ==> s[i].id != s[j].id
    {
      if s[k].dimensions.IsEmpty() {
        return false;
      }
      if !s[k].dimensions.EnclosedBy(fb) {
        return false;
      }
      if s[k].id in seen {
        return false;
      }
      seen := seen + {s[k].id};
      k := k + 1;
    }
    return true;
  }

  /** ScreenSet::operator==: element-wise, so the order of screens matters.
      Any two distinct screens listed in the other order give an unequal
      layout holding the same screens. */
  lemma EqualityIsOrderSensitive(x: Screen, y: Screen)
    requires x != y
    ensures multiset(ScreenSet([x, y]).screens) == multiset(ScreenSet([y, x]).screens)
    ensures ScreenSet([x, y]) != ScreenSet([y, x])
  {
    assert ScreenSet([x, y]).screens[0] != ScreenSet([y, x]).screens[0];
  }
}

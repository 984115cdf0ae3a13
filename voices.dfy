/** The voice catalog: the engine's voices filtered to English, sorted by
    upper-cased name, and the rule that picks which one the drop-down shows. */
module Voices {
  import opened JsValues

  /** A speech-synthesis voice as the client uses it. */
  datatype Voice = Voice(name: string, lang: string)

  /** The language family the catalog keeps. */
  const ENGLISH: string := "en"

  predicate IsEnglish(v: Voice) {
    StartsWith(v.lang, ENGLISH)
  }

  // ---------------------------------------------------------------- filter

  /** `voices.filter(voice => voice.lang.startsWith('en'))`. */
  function EnglishVoices(vs: seq<Voice>): (r: seq<Voice>)
    ensures |r| <= |vs|
    ensures forall i :: 0 <= i < |r| ==> IsEnglish(r[i])
    ensures forall v :: multiset(r)[v] == if IsEnglish(v) then multiset(vs)[v] else 0
  {
    if vs == [] then []
    else
      assert vs == [vs[0]] + vs[1..];
      if IsEnglish(vs[0]) then [vs[0]] + EnglishVoices(vs[1..]) else EnglishVoices(vs[1..])
  }

  /** r is vs at the increasing positions idx: a subsequence of vs, in the
      order of vs. */
  predicate SubseqAt(r: seq<Voice>, vs: seq<Voice>, idx: seq<nat>) {
    && |idx| == |r|
    && (forall i :: 0 <= i < |r| ==> idx[i] < |vs| && r[i] == vs[idx[i]])
    && (forall i, j :: 0 <= i < j < |r| ==> idx[i] < idx[j])
  }

  /** `filter` keeps the voices in the order they were reported: the result
      sits in the input at increasing positions, which the lemma returns. */
  lemma {:induction false} EnglishVoicesKeepsOrder(vs: seq<Voice>) returns (idx: seq<nat>)
    ensures SubseqAt(EnglishVoices(vs), vs, idx)
  {
    if vs == [] {
      idx := [];
    } else {
      var tail := EnglishVoices(vs[1..]);
      var rest := EnglishVoicesKeepsOrder(vs[1..]);
      ShiftedSubseq(tail, vs, rest);
      if IsEnglish(vs[0]) {
        idx := [0] + Shifted(rest);
        ConsSubseq(tail, vs, Shifted(rest));
        assert EnglishVoices(vs) == [vs[0]] + tail;
      } else {
        idx := Shifted(rest);
        assert EnglishVoices(vs) == tail;
      }
    }
  }

  /** Every position one further on. */
  function Shifted(idx: seq<nat>): (r: seq<nat>)
    ensures |r| == |idx| && forall i :: 0 <= i < |idx| ==> r[i] == idx[i] + 1
  {
    seq(|idx|, i requires 0 <= i < |idx| => idx[i] + 1)
  }

  lemma ShiftedSubseq(r: seq<Voice>, vs: seq<Voice>, idx: seq<nat>)
    requires vs != [] && SubseqAt(r, vs[1..], idx)
    ensures SubseqAt(r, vs, Shifted(idx))
  {
    forall i | 0 <= i < |r|
      ensures Shifted(idx)[i] < |vs| && r[i] == vs[Shifted(idx)[i]]
    {
      assert vs[1..][idx[i]] == vs[idx[i] + 1];
    }
  }

  lemma ConsSubseq(r: seq<Voice>, vs: seq<Voice>, idx: seq<nat>)
    requires vs != [] && SubseqAt(r, vs, idx) && forall i :: 0 <= i < |idx| ==> idx[i] >= 1
    ensures SubseqAt([vs[0]] + r, vs, [0] + idx)
  {
    var r', idx' := [vs[0]] + r, [0] + idx;
    forall i | 0 < i < |r'| ensures r'[i] == r[i - 1] && idx'[i] == idx[i - 1] { }
  }

  // ---------------------------------------------------------------- sort

  /** What the comparator compares: `name.toUpperCase()`, as code units. */
  function SortKey(v: Voice): seq<CodeUnit> {
    Utf16(Upper(v.name))
  }

  /** The comparator `(a, b) => aName < bName ? -1 : aName > bName ? 1 : 0`
      says "a goes before b" exactly when a's key is smaller. */
  predicate Before(a: Voice, b: Voice) {
    LexLess(SortKey(a), SortKey(b))
  }

  /** Non-decreasing by key: no voice is followed by one that belongs before it. */
  predicate Sorted(s: seq<Voice>) {
    forall i :: 0 <= i < |s| - 1 ==> !Before(s[i + 1], s[i])
  }

  /** The voices of s with key exactly k, in their order in s. */
  function WithKey(s: seq<Voice>, k: seq<CodeUnit>): seq<Voice>
  {
    if s == [] then []
    else if SortKey(s[0]) == k then [s[0]] + WithKey(s[1..], k)
    else WithKey(s[1..], k)
  }

  /** Puts x in front of the first voice of s that does not belong before x,
      so x stays ahead of the voices with an equal key. */
  function Insert(x: Voice, s: seq<Voice>): (r: seq<Voice>)
    ensures multiset(r) == multiset(s) + multiset{x}
    ensures Sorted(s) ==> Sorted(r)
    ensures forall k :: WithKey(r, k) == if SortKey(x) == k then [x] + WithKey(s, k) else WithKey(s, k)
    decreases |s|, 1
  {
    if s == [] || !Before(s[0], x) then
      WithKeyCons(x, s);
      [x] + s
    else
      var t := Insert(x, s[1..]);
      assert s == [s[0]] + s[1..];
      LexLessIrreflexiveKey(s[0], x);
      InsertKeepsOrder(x, s);
      WithKeyCons(s[0], t);
      WithKeyCons(s[0], s[1..]);
      [s[0]] + t
  }

  lemma WithKeyCons(y: Voice, t: seq<Voice>)
    ensures forall k :: WithKey([y] + t, k) == if SortKey(y) == k then [y] + WithKey(t, k) else WithKey(t, k)
  {
    assert ([y] + t)[1..] == t;
  }

  /** When x goes after the head y of a sorted s, y stays ahead of the rest. */
  lemma InsertKeepsOrder(x: Voice, s: seq<Voice>)
    requires s != [] && Before(s[0], x)
    ensures Sorted(s) ==> Sorted([s[0]] + Insert(x, s[1..]))
    decreases |s|, 0
  {
    if Sorted(s) {
      var tail := s[1..];
      assert Sorted(tail) by {
        forall i | 0 <= i < |tail| - 1 ensures !Before(tail[i + 1], tail[i]) {
          assert tail[i] == s[i + 1] && tail[i + 1] == s[i + 2];
        }
      }
      var t := Insert(x, tail);
      InsertHead(x, tail, s[0]);
      var r := [s[0]] + t;
      forall i | 0 <= i < |r| - 1 ensures !Before(r[i + 1], r[i]) {
        if i > 0 { assert r[i] == t[i - 1] && r[i + 1] == t[i]; }
      }
    }
  }

  lemma LexLessIrreflexiveKey(y: Voice, x: Voice)
    requires Before(y, x)
    ensures SortKey(y) != SortKey(x)
  {
    if SortKey(y) == SortKey(x) { LexLessIrreflexive(SortKey(x)); }
  }

  /** The head of the inserted result is the head of the input or x itself,
      and either way it does not break the order after y. */
  lemma InsertHead(x: Voice, s: seq<Voice>, y: Voice)
    requires Before(y, x)
    requires Sorted(s) && (s != [] ==> !Before(s[0], y))
    ensures Insert(x, s) != [] && !Before(Insert(x, s)[0], y)
    decreases |s|, 2
  {
    var r := Insert(x, s);
    if s == [] || !Before(s[0], x) {
      assert r[0] == x;
      if Before(x, y) { LexLessTransitive(SortKey(x), SortKey(y), SortKey(x)); LexLessIrreflexive(SortKey(x)); }
    } else {
      assert r[0] == s[0];
    }
  }

  /** The sort: a stable insertion sort by key. */
  function SortByName(s: seq<Voice>): (r: seq<Voice>)
    ensures multiset(r) == multiset(s)
    ensures Sorted(r)
    ensures forall k :: WithKey(r, k) == WithKey(s, k)
  {
    if s == [] then []
    else
      assert s == [s[0]] + s[1..];
      Insert(s[0], SortByName(s[1..]))
  }

  /** The catalog the drop-down lists. */
  function Catalog(reported: seq<Voice>): (catalog: seq<Voice>)
    ensures forall v :: multiset(catalog)[v] == if IsEnglish(v) then multiset(reported)[v] else 0
    ensures Sorted(catalog)
    ensures forall k :: WithKey(catalog, k) == WithKey(EnglishVoices(reported), k)
  {
    SortByName(EnglishVoices(reported))
  }

  /** Sorted in the adjacent sense means sorted in every pair. */
  lemma {:induction false} SortedPairwise(s: seq<Voice>, i: nat, j: nat)
    requires Sorted(s) && i <= j < |s|
    ensures !Before(s[j], s[i])
    decreases j - i
  {
    if i < j {
      SortedPairwise(s, i + 1, j);
      assert !Before(s[i + 1], s[i]);
      NotLessTransitive(SortKey(s[i]), SortKey(s[i + 1]), SortKey(s[j]));
    } else {
      LexLessIrreflexive(SortKey(s[i]));
    }
  }

  lemma WithKeyHas(s: seq<Voice>, k: seq<CodeUnit>, i: nat)
    requires i < |s| && SortKey(s[i]) == k
    ensures WithKey(s, k) != []
  {
    if i > 0 { WithKeyHas(s[1..], k, i - 1); }
  }

  lemma WithKeyMembers(s: seq<Voice>, k: seq<CodeUnit>)
    requires WithKey(s, k) != []
    ensures exists i :: 0 <= i < |s| && SortKey(s[i]) == k
  {
    if SortKey(s[0]) != k {
      WithKeyMembers(s[1..], k);
      var i :| 0 <= i < |s[1..]| && SortKey(s[1..][i]) == k;
      assert SortKey(s[i + 1]) == k;
    }
  }

  /** A sorted sequence that keeps every key's voices in a given order is
      unique: the catalog is the one order any stable sort must produce. */
  lemma {:induction false} StableSortUnique(a: seq<Voice>, b: seq<Voice>)
    requires Sorted(a) && Sorted(b)
    requires forall k :: WithKey(a, k) == WithKey(b, k)
    ensures a == b
    decreases |a|
  {
    if a == [] || b == [] {
      if a != [] { WithKeyHas(a, SortKey(a[0]), 0); WithKeyMembers(b, SortKey(a[0])); }
      if b != [] { WithKeyHas(b, SortKey(b[0]), 0); WithKeyMembers(a, SortKey(b[0])); }
    } else {
      var ka, kb := SortKey(a[0]), SortKey(b[0]);
      WithKeyHas(a, ka, 0);
      WithKeyMembers(b, ka);
      var j :| 0 <= j < |b| && SortKey(b[j]) == ka;
      SortedPairwise(b, 0, j);
      WithKeyHas(b, kb, 0);
      WithKeyMembers(a, kb);
      var i :| 0 <= i < |a| && SortKey(a[i]) == kb;
      SortedPairwise(a, 0, i);
      if ka != kb {
        LexLessTotal(ka, kb);
      }
      assert ka == kb;
      assert WithKey(a, ka)[0] == a[0];
      assert WithKey(b, ka)[0] == b[0];
      forall k ensures WithKey(a[1..], k) == WithKey(b[1..], k) {
        assert WithKey(a, k) == WithKey(b, k);
        if k == ka {
          assert WithKey(a, k)[1..] == WithKey(a[1..], k);
          assert WithKey(a, k) == [a[0]] + WithKey(a[1..], k);
          assert WithKey(b, k) == [b[0]] + WithKey(b[1..], k);
          assert WithKey(b, k)[1..] == WithKey(b[1..], k);
        } else {
          assert WithKey(a, k) == WithKey(a[1..], k);
          assert WithKey(b, k) == WithKey(b[1..], k);
        }
      }
      SortedTail(a);
      SortedTail(b);
      StableSortUnique(a[1..], b[1..]);
      assert a == [a[0]] + a[1..] && b == [b[0]] + b[1..];
    }
  }

  lemma SortedTail(s: seq<Voice>)
    requires Sorted(s) && s != []
    ensures Sorted(s[1..])
  {
    var t := s[1..];
    forall i | 0 <= i < |t| - 1 ensures !Before(t[i + 1], t[i]) {
      assert t[i] == s[i + 1] && t[i + 1] == s[i + 2];
    }
  }

  // ---------------------------------------------------------------- selection

  /** `s.findIndex(p)`: the first index whose voice satisfies p, or -1. */
  function FindIndex(s: seq<Voice>, p: Voice -> bool): (i: int)
    ensures -1 <= i < |s|
    ensures 0 <= i ==> p(s[i]) && forall j :: 0 <= j < i ==> !p(s[j])
    ensures i == -1 ==> forall j :: 0 <= j < |s| ==> !p(s[j])
  {
    if s == [] then -1
    else if p(s[0]) then 0
    else
      var k := FindIndex(s[1..], p);
      if k == -1 then -1 else k + 1
  }

  predicate HasName(catalog: seq<Voice>, name: string) {
    exists i :: 0 <= i < |catalog| && catalog[i].name == name
  }

  /** The default the source prefers: a voice of the preferred region whose
      name contains the preferred marker (the source's 'en-GB' and 'David'). */
  predicate IsPreferred(v: Voice, marker: string, region: string) {
    StartsWith(v.lang, region) && Includes(v.name, marker)
  }

  predicate InRegion(v: Voice, region: string) {
    StartsWith(v.lang, region)
  }

  /** What the selection step leaves behind: the index to select, and the
      saved voice name, cleared when the catalog lacks it. */
  datatype Selection = Selection(index: int, loaded: Option<string>)

  /** The voice-selection rule of populateVoiceList. */
  function ChooseVoice(catalog: seq<Voice>, loaded: Option<string>, marker: string, region: string): (sel: Selection)
    ensures 0 <= sel.index && (catalog != [] ==> sel.index < |catalog|)
    ensures sel.loaded == loaded || sel.loaded == None
  {
    var saved := if Truthy(loaded) then FindIndex(catalog, (v: Voice) => v.name == loaded.value) else -1;
    var kept := if Truthy(loaded) && saved == -1 then None else loaded;
    if saved != -1 then Selection(saved, kept)
    else
      var preferred := FindIndex(catalog, (v: Voice) => IsPreferred(v, marker, region));
      if preferred != -1 then Selection(preferred, kept)
      else
        var regional := FindIndex(catalog, (v: Voice) => InRegion(v, region));
        if regional != -1 then Selection(regional, kept)
        else Selection(0, kept)
  }

  /** The priority order of the selection: the saved name, then the
      preferred voice, then the first voice of the region, then the first
      voice; a saved name the catalog lacks is forgotten. */
  lemma ChooseVoiceOrder(catalog: seq<Voice>, loaded: Option<string>, marker: string, region: string, sel: Selection)
    requires sel == ChooseVoice(catalog, loaded, marker, region)
    // 1. the saved name, exactly, at its first occurrence
    ensures Truthy(loaded) && HasName(catalog, loaded.value) ==>
              && catalog[sel.index].name == loaded.value
              && (forall j :: 0 <= j < sel.index ==> catalog[j].name != loaded.value)
              && sel.loaded == loaded
    // a saved name the catalog lacks is forgotten; an absent or empty one is kept as it is
    ensures Truthy(loaded) && !HasName(catalog, loaded.value) ==> sel.loaded == None
    ensures !Truthy(loaded) ==> sel.loaded == loaded
    // 2. otherwise the first preferred voice
    ensures !(Truthy(loaded) && HasName(catalog, loaded.value)) &&
            (exists i :: 0 <= i < |catalog| && IsPreferred(catalog[i], marker, region)) ==>
              && IsPreferred(catalog[sel.index], marker, region)
              && forall j :: 0 <= j < sel.index ==> !IsPreferred(catalog[j], marker, region)
    // 3. otherwise the first voice of the region
    ensures !(Truthy(loaded) && HasName(catalog, loaded.value)) &&
            (forall i :: 0 <= i < |catalog| ==> !IsPreferred(catalog[i], marker, region)) &&
            (exists i :: 0 <= i < |catalog| && InRegion(catalog[i], region)) ==>
              && InRegion(catalog[sel.index], region)
              && forall j :: 0 <= j < sel.index ==> !InRegion(catalog[j], region)
    // 4. otherwise index 0
    ensures !(Truthy(loaded) && HasName(catalog, loaded.value)) &&
            (forall i :: 0 <= i < |catalog| ==> !InRegion(catalog[i], region)) ==>
              sel.index == 0
  {
  }

  /** Re-running the selection with the name it picked (what the client
      saves and reads back on the next voices-changed event) picks a voice of
      that same name again, and keeps the name. */
  lemma ReselectionIsStable(catalog: seq<Voice>, loaded: Option<string>, marker: string, region: string)
    requires catalog != []
    requires catalog[ChooseVoice(catalog, loaded, marker, region).index].name != ""
    ensures var n := catalog[ChooseVoice(catalog, loaded, marker, region).index].name;
            var again := ChooseVoice(catalog, Some(n), marker, region);
            catalog[again.index].name == n && again.loaded == Some(n)
  {
    var sel := ChooseVoice(catalog, loaded, marker, region);
    var n := catalog[sel.index].name;
    assert HasName(catalog, n);
    ChooseVoiceOrder(catalog, Some(n), marker, region, ChooseVoice(catalog, Some(n), marker, region));
  }

  /** Two English voices of the same name in different regions keep their
      reported order in the catalog. */
  lemma SameNameCatalog()
    ensures Catalog([Voice("X", "en-US"), Voice("X", "en-GB")]) == [Voice("X", "en-US"), Voice("X", "en-GB")]
  {
    var us, gb := Voice("X", "en-US"), Voice("X", "en-GB");
    assert [us, gb][1..] == [gb];
    assert StartsWith(us.lang, "en") && StartsWith(gb.lang, "en");
    assert EnglishVoices([us, gb]) == [us, gb];
    assert SortByName([gb]) == [gb];
    assert SortKey(gb) == SortKey(us);
    LexLessIrreflexive(SortKey(gb));
    assert Insert(us, [gb]) == [us, gb];
  }

  /** With the region `en-GB` and no saved or preferred voice, the selection
      among those two picks the second. */
  lemma SameNameChoice()
    ensures ChooseVoice([Voice("X", "en-US"), Voice("X", "en-GB")], None, "David", "en-GB").index == 1
  {
    var us, gb := Voice("X", "en-US"), Voice("X", "en-GB");
    assert !Includes("X", "David");
    assert us.lang[..5][3] != "en-GB"[3];
    assert !StartsWith(us.lang, "en-GB") && StartsWith(gb.lang, "en-GB");
  }
}

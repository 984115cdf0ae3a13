/** Reading one cookie out of the `document.cookie` string, which the browser
    gives as `name=value` pairs separated by `"; "`. */
module Cookies {
  import opened JsValues

  /** One segment with its leading spaces removed (only U+0020, as the
      source's `charAt(0) == ' '` loop does). */
  function StripSpaces(c: string): (r: string)
    ensures |r| <= |c|
    ensures r == [] || r[0] != ' '
  {
    if c != [] && c[0] == ' ' then StripSpaces(c[1..]) else c
  }

  /** The stripped segment is the segment with its leading spaces cut off:
      a suffix of it, and everything cut off is a space. */
  lemma {:induction false} StripSpacesIsSuffix(c: string)
    ensures var r := StripSpaces(c);
            r == c[|c| - |r|..] && forall i :: 0 <= i < |c| - |r| ==> c[i] == ' '
  {
    if c != [] && c[0] == ' ' {
      StripSpacesIsSuffix(c[1..]);
    }
  }

  /** A segment matches when, stripped, it begins with `name=`. */
  predicate Matches(segment: string, name: string) {
    StartsWith(StripSpaces(segment), name + "=")
  }

  /** The value a matching segment carries: what follows `name=`. */
  function ValueIn(segment: string, name: string): string
    requires Matches(segment, name)
  {
    StripSpaces(segment)[|name| + 1..]
  }

  /** The value of the first segment from index `from` on that matches. */
  function FirstMatch(segments: seq<string>, name: string, from: nat): Option<string>
    requires from <= |segments|
    decreases |segments| - from
  {
    if from == |segments| then None
    else if Matches(segments[from], name) then Some(ValueIn(segments[from], name))
    else FirstMatch(segments, name, from + 1)
  }

  /** getCookie(name) over the cookie string `cookie`. */
  function CookieValue(cookie: string, name: string): Option<string>
  {
    FirstMatch(Split(cookie, ';'), name, 0)
  }

  /** getCookie: scans the `;`-segments in order, strips each one's leading
      spaces and returns what follows `name=` in the first segment that then
      begins with `name=`; None (null) when no segment does. */
  method GetCookie(cookie: string, name: string) returns (value: Option<string>)
    ensures value == CookieValue(cookie, name)
  {
    var nameEQ := name + "=";
    var ca := Split(cookie, ';');
    for i := 0 to |ca|
      invariant FirstMatch(ca, name, 0) == FirstMatch(ca, name, i)
    {
      var c := ca[i];
      while c != [] && c[0] == ' '
        invariant StripSpaces(c) == StripSpaces(ca[i])
      {
        c := c[1..];
      }
      if StartsWith(c, nameEQ) {
        return Some(c[|nameEQ|..]);
      }
    }
    return None;
  }

  // ---------------------------------------------------------------- properties

  /** Nothing is found exactly when no segment from `from` on matches. */
  lemma {:induction false} FirstMatchNone(segments: seq<string>, name: string, from: nat)
    requires from <= |segments|
    ensures FirstMatch(segments, name, from).None? <==> forall k :: from <= k < |segments| ==> !Matches(segments[k], name)
    decreases |segments| - from
  {
    if from < |segments| {
      FirstMatchNone(segments, name, from + 1);
    }
  }

  /** The value found is the one in the first matching segment. */
  lemma {:induction false} FirstMatchIsFirst(segments: seq<string>, name: string, from: nat, k: nat)
    requires from <= k < |segments|
    requires Matches(segments[k], name)
    requires forall j :: from <= j < k ==> !Matches(segments[j], name)
    ensures FirstMatch(segments, name, from) == Some(ValueIn(segments[k], name))
    decreases k - from
  {
    if from < k {
      FirstMatchIsFirst(segments, name, from + 1, k);
    }
  }

  /** A segment for a longer key, such as `nameX=...` with X not '=', never
      matches `name`, whether it opens the header or follows a `"; "`. */
  lemma LongerKeyNeverMatches(name: string, x: char, rest: string)
    requires name != [] && x != '='
    ensures !Matches(name + [x] + rest, name)
    ensures !Matches(" " + name + [x] + rest, name)
  {
    var seg := name + [x] + rest;
    if name[0] != ' ' {
      assert seg[0] == name[0];
      assert StripSpaces(seg) == seg;
      assert " " + name + [x] + rest == " " + seg;
      assert (" " + seg)[1..] == seg;
      assert StripSpaces(" " + seg) == seg;
      assert seg[|name|] == x;
      assert (name + "=")[|name|] == '=';
    } else {
      assert (name + "=")[0] == ' ';
    }
  }

  // ---------------------------------------------------------------- the cookie jar

  /** A cookie as the browser stores it. */
  datatype Cookie = Cookie(key: string, value: string)

  /** What `document.cookie` reads as: `k1=v1; k2=v2; ...`. */
  function Header(jar: seq<Cookie>): string
  {
    Join(Segments(jar), ';')
  }

  function Pair(c: Cookie): string {
    c.key + "=" + c.value
  }

  /** The `;`-pieces of the header: the first pair bare, the later ones after
      the single space of the `"; "` separator. */
  function Segments(jar: seq<Cookie>): (parts: seq<string>)
    ensures |parts| == (if jar == [] then 1 else |jar|)
  {
    if jar == [] then [""]
    else [Pair(jar[0])] + seq(|jar| - 1, i requires 0 <= i < |jar| - 1 => " " + Pair(jar[i + 1]))
  }

  /** A name the browser can store: not empty, and free of '=', ';' and a
      leading space. */
  predicate IsCookieName(k: string) {
    k != [] && k[0] != ' ' && '=' !in k && ';' !in k
  }

  predicate IsWellFormed(jar: seq<Cookie>) {
    forall i :: 0 <= i < |jar| ==> IsCookieName(jar[i].key) && ';' !in jar[i].value
  }

  /** The value of the first cookie in the jar called `name`. */
  function Lookup(jar: seq<Cookie>, name: string): Option<string>
  {
    if jar == [] then None
    else if jar[0].key == name then Some(jar[0].value)
    else Lookup(jar[1..], name)
  }

  /** Reading a cookie back from the header the browser builds gives the
      value stored under that name, and null for a name that is not there. */
  lemma HeaderRoundTrip(jar: seq<Cookie>, name: string)
    requires IsWellFormed(jar)
    requires '=' !in name
    ensures CookieValue(Header(jar), name) == Lookup(jar, name)
  {
    var parts := Segments(jar);
    forall k | 0 <= k < |parts| ensures ';' !in parts[k] {
      if jar != [] { NoSemicolonInSegment(jar, k); }
    }
    SplitJoin(parts, ';');
    if jar == [] {
      assert !Matches(parts[0], name);
    } else {
      FirstMatchIsLookup(jar, name, 0);
    }
  }

  lemma NoSemicolonInSegment(jar: seq<Cookie>, k: nat)
    requires IsWellFormed(jar) && k < |jar|
    ensures ';' !in Segments(jar)[k]
  {
    var c := jar[k];
    assert IsCookieName(c.key) && ';' !in c.value;
    assert ';' !in c.key + "=" + c.value;
    SegmentAt(jar, k);
    assert ';' !in " " + Pair(c);
  }

  lemma {:induction false} FirstMatchIsLookup(jar: seq<Cookie>, name: string, from: nat)
    requires IsWellFormed(jar) && '=' !in name
    requires jar != [] && from <= |jar|
    ensures FirstMatch(Segments(jar), name, from) == Lookup(jar[from..], name)
    decreases |jar| - from
  {
    var parts := Segments(jar);
    if from < |jar| {
      var c := jar[from];
      SegmentStrips(jar, from);
      assert StripSpaces(parts[from]) == Pair(c);
      PairMatches(c, name);
      assert jar[from..][0] == c;
      if c.key != name {
        FirstMatchIsLookup(jar, name, from + 1);
        assert jar[from..][1..] == jar[from + 1..];
      }
    }
  }

  lemma SegmentStrips(jar: seq<Cookie>, k: nat)
    requires IsWellFormed(jar) && k < |jar|
    ensures StripSpaces(Segments(jar)[k]) == Pair(jar[k])
  {
    var c := jar[k];
    assert IsCookieName(c.key);
    var p := Pair(c);
    assert p[0] == c.key[0];
    StripOneSpace(p);
    SegmentAt(jar, k);
  }

  lemma SegmentAt(jar: seq<Cookie>, k: nat)
    requires k < |jar|
    ensures Segments(jar)[k] == if k == 0 then Pair(jar[0]) else " " + Pair(jar[k])
  {
    var rest := seq(|jar| - 1, i requires 0 <= i < |jar| - 1 => " " + Pair(jar[i + 1]));
    assert Segments(jar) == [Pair(jar[0])] + rest;
    if k > 0 {
      assert Segments(jar)[k] == rest[k - 1];
    }
  }

  /** The one space after a `;` is stripped, and nothing more. */
  lemma StripOneSpace(p: string)
    requires p != [] && p[0] != ' '
    ensures StripSpaces(p) == p && StripSpaces(" " + p) == p
  {
    assert (" " + p)[1..] == p;
  }

  /** `key=value` begins with `name=` exactly when key is name. */
  lemma PairMatches(c: Cookie, name: string)
    requires IsCookieName(c.key) && '=' !in name
    ensures StartsWith(Pair(c), name + "=") <==> c.key == name
    ensures c.key == name ==> Pair(c)[|name| + 1..] == c.value
  {
    var p := Pair(c);
    var e := name + "=";
    if StartsWith(p, e) {
      forall i | 0 <= i < |e| ensures p[i] == e[i] {
        assert p[..|e|][i] == p[i];
      }
      assert p[|c.key|] == '=';
      assert e[|name|] == '=';
      assert forall i :: 0 <= i < |name| && i < |c.key| ==> c.key[i] == p[i] == e[i] == name[i];
    }
    if c.key == name {
      assert p[..|e|] == e;
    }
  }
}

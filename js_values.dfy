/** The JavaScript values and string built-ins that the chat client relies on:
    `null` as an Option, strings as the engine stores them (UTF-16 code units),
    and the String methods the client calls (trim, split, startsWith, includes,
    toUpperCase on ASCII letters, and the relational comparison of strings). */
module JsValues {

  /** `null` (or a missing property) is None. */
  datatype Option<+T> = None | Some(value: T)

  /** JavaScript truthiness of a string that may be missing: present and not
      empty. */
  predicate Truthy(s: Option<string>) {
    s.Some? && s.value != ""
  }

  /** A UTF-16 code unit, the element of a JavaScript string. */
  newtype CodeUnit = x: int | 0 <= x < 0x1_0000

  /** The UTF-16 encoding of one character: one code unit inside the Basic
      Multilingual Plane, a surrogate pair outside it. */
  function Utf16Char(c: char): (u: seq<CodeUnit>)
    ensures |u| == (if c as int < 0x1_0000 then 1 else 2)
    ensures |u| == 1 ==> u[0] as int == c as int
    ensures |u| == 2 ==> 0xD800 <= u[0] as int < 0xDC00 <= u[1] as int < 0xE000
    ensures |u| == 2 ==> (u[0] as int - 0xD800) * 0x400 + (u[1] as int - 0xDC00) + 0x1_0000 == c as int
  {
    var v := c as int;
    if v < 0x1_0000 then [v as CodeUnit]
    else
      var w := v - 0x1_0000;
      [(0xD800 + w / 0x400) as CodeUnit, (0xDC00 + w % 0x400) as CodeUnit]
  }

  /** The code units of a string, i.e. what `charCodeAt` indexes and what the
      string comparison operators compare. */
  function Utf16(s: string): (u: seq<CodeUnit>)
    ensures |u| >= |s|
  {
    if s == [] then [] else Utf16Char(s[0]) + Utf16(s[1..])
  }

  // ---------------------------------------------------------------- prefixes

  /** `s.startsWith(p)`, and equally `s.indexOf(p) == 0`. */
  predicate StartsWith(s: string, p: string) {
    |p| <= |s| && s[..|p|] == p
  }

  /** `s.includes(m)`: m occurs in s at some position. */
  predicate Includes(s: string, m: string) {
    StartsWith(s, m) || (s != [] && Includes(s[1..], m))
  }

  /** s holds m starting at position i. */
  predicate OccursAt(s: string, m: string, i: int) {
    0 <= i <= |s| - |m| && s[i..i + |m|] == m
  }

  /** A prefix test is a split: s starts with p exactly when s is p followed
      by the rest of s. */
  lemma StartsWithIsSplit(s: string, p: string)
    ensures StartsWith(s, p) <==> |p| <= |s| && s == p + s[|p|..]
  {
    if |p| <= |s| && s == p + s[|p|..] {
      assert s[..|p|] == (p + s[|p|..])[..|p|] == p;
    }
  }

  /** `includes` finds m exactly when m occurs in s at some position. */
  lemma {:induction false} IncludesIsOccurrence(s: string, m: string)
    ensures Includes(s, m) <==> exists i :: OccursAt(s, m, i)
    decreases |s|
  {
    if StartsWith(s, m) {
      assert OccursAt(s, m, 0);
    } else if s == [] {
      assert forall i :: !OccursAt(s, m, i);
    } else {
      IncludesIsOccurrence(s[1..], m);
      if i :| OccursAt(s, m, i) {
        assert i != 0;
        assert s[1..][i - 1..i - 1 + |m|] == s[i..i + |m|];
        assert OccursAt(s[1..], m, i - 1);
      }
      if j :| OccursAt(s[1..], m, j) {
        assert s[1..][j..j + |m|] == s[j + 1..j + 1 + |m|];
        assert OccursAt(s, m, j + 1);
      }
    }
  }

  // ---------------------------------------------------------------- trim

  /** The characters `String.prototype.trim` removes: WhiteSpace (tab, vertical
      tab, form feed, space, no-break space, byte order mark and the Zs space
      separators) and LineTerminator (LF, CR, LS, PS). */
  predicate IsJsSpace(c: char) {
    var v := c as int;
    v == 0x09 || v == 0x0A || v == 0x0B || v == 0x0C || v == 0x0D || v == 0x20 ||
    v == 0xA0 || v == 0x1680 || (0x2000 <= v <= 0x200A) || v == 0x2028 || v == 0x2029 ||
    v == 0x202F || v == 0x205F || v == 0x3000 || v == 0xFEFF
  }

  /** Every such character is a single UTF-16 code unit, and among the ASCII
      characters they are exactly tab, line feed, vertical tab, form feed,
      carriage return and space. */
  lemma JsSpaceIsOneUnit(c: char)
    ensures IsJsSpace(c) ==> Utf16Char(c) == [c as int as CodeUnit]
    ensures c as int < 0x80 ==>
              (IsJsSpace(c) <==> c == '\t' || c == '\n' || c == '\U{000B}' || c == '\U{000C}' || c == '\r' || c == ' ')
  {
  }

  predicate AllSpace(s: string) {
    forall i :: 0 <= i < |s| ==> IsJsSpace(s[i])
  }

  function TrimStart(s: string): (r: string)
    ensures |r| <= |s| && r == s[|s| - |r|..]
    ensures AllSpace(s[..|s| - |r|])
    ensures r == [] || !IsJsSpace(r[0])
  {
    if s != [] && IsJsSpace(s[0]) then TrimStart(s[1..]) else s
  }

  function TrimEnd(s: string): (r: string)
    ensures |r| <= |s| && r == s[..|r|]
    ensures AllSpace(s[|r|..])
    ensures r == [] || !IsJsSpace(r[|r| - 1])
  {
    if s != [] && IsJsSpace(s[|s| - 1]) then TrimEnd(s[..|s| - 1]) else s
  }

  /** `s.trim()`: s with its leading and trailing white space removed. */
  function Trim(s: string): (r: string)
    ensures |r| <= |s|
    ensures r == [] || (!IsJsSpace(r[0]) && !IsJsSpace(r[|r| - 1]))
  {
    TrimEnd(TrimStart(s))
  }

  /** r sits in s at position i with only white space before and after it. */
  predicate FramedBySpace(s: string, r: string, i: int) {
    0 <= i <= |s| - |r| && s[i..i + |r|] == r && AllSpace(s[..i]) && AllSpace(s[i + |r|..])
  }

  /** The trimmed text is a piece of s with only white space around it. */
  lemma TrimIsInfix(s: string)
    ensures exists i :: FramedBySpace(s, Trim(s), i)
  {
    var t := TrimStart(s);
    var r := TrimEnd(t);
    var i := |s| - |t|;
    assert t == s[i..];
    assert r == t[..|r|];
    assert s[i..i + |r|] == r;
    assert s[i + |r|..] == t[|r|..];
    assert Trim(s) == r;
    assert FramedBySpace(s, r, i);
  }

  /** The trimmed text is empty exactly when the input is all white space. */
  lemma TrimEmptyIffAllSpace(s: string)
    ensures Trim(s) == [] <==> AllSpace(s)
  {
    TrimIsInfix(s);
  }

  /** Trimming twice is trimming once. */
  lemma TrimIdempotent(s: string)
    ensures Trim(Trim(s)) == Trim(s)
  {
    var r := Trim(s);
    assert TrimStart(r) == r;
    assert TrimEnd(r) == r;
  }

  // ---------------------------------------------------------------- split

  /** The position of the first `sep` in s, or |s| when there is none. */
  function IndexOf(s: string, sep: char): (i: nat)
    ensures i <= |s|
    ensures i < |s| ==> s[i] == sep
    ensures sep !in s[..i]
  {
    if s == [] then 0
    else if s[0] == sep then 0
    else 1 + IndexOf(s[1..], sep)
  }

  /** Concatenates the parts, with `sep` between each two: `parts.join(sep)`. */
  function Join(parts: seq<string>, sep: char): string
  {
    if parts == [] then []
    else if |parts| == 1 then parts[0]
    else parts[0] + [sep] + Join(parts[1..], sep)
  }

  /** `s.split(sep)` for a one-character separator: the maximal pieces of s
      between separators, at least one (the empty string splits to [""]). */
  function Split(s: string, sep: char): (parts: seq<string>)
    ensures |parts| >= 1
    ensures forall k :: 0 <= k < |parts| ==> sep !in parts[k]
    ensures Join(parts, sep) == s
    decreases |s|
  {
    var i := IndexOf(s, sep);
    if i == |s| then
      assert s[..i] == s;
      [s]
    else
      var rest := Split(s[i + 1..], sep);
      assert s == s[..i] + [sep] + s[i + 1..];
      [s[..i]] + rest
  }

  /** Splitting undoes joining when no part holds the separator. */
  lemma {:induction false} SplitJoin(parts: seq<string>, sep: char)
    requires |parts| >= 1
    requires forall k :: 0 <= k < |parts| ==> sep !in parts[k]
    ensures Split(Join(parts, sep), sep) == parts
    decreases |parts|
  {
    var p := parts[0];
    assert IndexOf(p, sep) == |p| by { IndexOfAbsent(p, sep); }
    if |parts| == 1 {
    } else {
      var s := Join(parts, sep);
      var restJoined := Join(parts[1..], sep);
      assert s == p + [sep] + restJoined;
      IndexOfAfter(p, sep, restJoined);
      assert s[|p| + 1..] == restJoined;
      SplitJoin(parts[1..], sep);
      assert s[..|p|] == p;
    }
  }

  lemma {:induction false} IndexOfAbsent(s: string, sep: char)
    requires sep !in s
    ensures IndexOf(s, sep) == |s|
  {
    if s != [] {
      assert s[0] in s;
      assert forall c :: c in s[1..] ==> c in s;
      IndexOfAbsent(s[1..], sep);
    }
  }

  lemma {:induction false} IndexOfAfter(p: string, sep: char, t: string)
    requires sep !in p
    ensures IndexOf(p + [sep] + t, sep) == |p|
  {
    if p == [] {
      assert (p + [sep] + t)[0] == sep;
    } else {
      assert p[0] in p;
      assert forall c :: c in p[1..] ==> c in p;
      assert (p + [sep] + t)[1..] == p[1..] + [sep] + t;
      IndexOfAfter(p[1..], sep, t);
    }
  }

  // ---------------------------------------------------------------- case and order

  /** `toUpperCase` on one character, for the ASCII letters. */
  function UpperChar(c: char): char {
    if 'a' <= c <= 'z' then (c as int - 32) as char else c
  }

  function Upper(s: string): (r: string)
    ensures |r| == |s|
    ensures forall i :: 0 <= i < |s| ==> r[i] == UpperChar(s[i])
  {
    seq(|s|, i requires 0 <= i < |s| => UpperChar(s[i]))
  }

  /** The relational comparison `a < b` of two JavaScript strings: a proper
      prefix is smaller, otherwise the first differing code unit decides. */
  predicate LexLess(a: seq<CodeUnit>, b: seq<CodeUnit>) {
    if a == [] then b != []
    else b != [] && (a[0] < b[0] || (a[0] == b[0] && LexLess(a[1..], b[1..])))
  }

  /** At k, a and b first differ and a's code unit is the smaller. */
  predicate SmallerAt(a: seq<CodeUnit>, b: seq<CodeUnit>, k: int) {
    0 <= k < |a| && k < |b| && a[..k] == b[..k] && a[k] < b[k]
  }

  /** The comparison is the ECMAScript rule for `<` on strings (IsLessThan,
      section 7.2.13 of ECMA-262): a is below b exactly when a is a proper
      prefix of b, or at the first position where they differ a's code unit
      is the smaller. */
  lemma {:induction false} LexLessIsFirstDifference(a: seq<CodeUnit>, b: seq<CodeUnit>)
    ensures LexLess(a, b) <==> (|a| < |b| && b[..|a|] == a) || exists k :: SmallerAt(a, b, k)
    decreases |a|
  {
    if a == [] {
      assert forall k :: !SmallerAt(a, b, k);
    } else if b == [] {
      assert forall k :: !SmallerAt(a, b, k);
    } else if a[0] < b[0] {
      assert SmallerAt(a, b, 0);
    } else if a[0] > b[0] {
      assert |a| < |b| ==> b[..|a|][0] != a[0];
    } else {
      LexLessIsFirstDifference(a[1..], b[1..]);
      assert a == [a[0]] + a[1..] && b == [b[0]] + b[1..];
      if k :| SmallerAt(a, b, k) {
        assert k != 0;
        assert a[1..][..k - 1] == a[1..k] && b[1..][..k - 1] == b[1..k];
        assert a[..k] == [a[0]] + a[1..k] && b[..k] == [b[0]] + b[1..k];
        assert SmallerAt(a[1..], b[1..], k - 1);
      }
      if k :| SmallerAt(a[1..], b[1..], k) {
        assert a[..k + 1] == [a[0]] + a[1..][..k] && b[..k + 1] == [b[0]] + b[1..][..k];
        assert SmallerAt(a, b, k + 1);
      }
      if |a| < |b| && b[..|a|] == a {
        assert b[1..][..|a| - 1] == b[..|a|][1..];
      }
      if |a| - 1 < |b| - 1 && b[1..][..|a| - 1] == a[1..] {
        assert b[..|a|] == [b[0]] + b[1..][..|a| - 1];
      }
    }
  }

  lemma {:induction false} LexLessIrreflexive(a: seq<CodeUnit>)
    ensures !LexLess(a, a)
  {
    if a != [] { LexLessIrreflexive(a[1..]); }
  }

  lemma {:induction false} LexLessTransitive(a: seq<CodeUnit>, b: seq<CodeUnit>, c: seq<CodeUnit>)
    requires LexLess(a, b) && LexLess(b, c)
    ensures LexLess(a, c)
  {
    if a != [] && a[0] == b[0] && b[0] == c[0] {
      LexLessTransitive(a[1..], b[1..], c[1..]);
    }
  }

  /** Two different strings are always ordered one way or the other. */
  lemma {:induction false} LexLessTotal(a: seq<CodeUnit>, b: seq<CodeUnit>)
    requires a != b
    ensures LexLess(a, b) || LexLess(b, a)
  {
    if a != [] && b != [] && a[0] == b[0] {
      assert a == [a[0]] + a[1..] && b == [b[0]] + b[1..];
      LexLessTotal(a[1..], b[1..]);
    }
  }

  /** "Not less than" chains: if b is not below a and c is not below b, then
      c is not below a. */
  lemma NotLessTransitive(a: seq<CodeUnit>, b: seq<CodeUnit>, c: seq<CodeUnit>)
    requires !LexLess(b, a) && !LexLess(c, b)
    ensures !LexLess(c, a)
  {
    if LexLess(c, a) && a != b && b != c {
      LexLessTotal(a, b);
      LexLessTotal(b, c);
      LexLessTransitive(a, b, c);
      LexLessTransitive(a, c, a);
      LexLessIrreflexive(a);
    }
  }
}

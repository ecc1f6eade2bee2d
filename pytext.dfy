/** The Python `str` operations the pipeline relies on: `strip()`, `lower()`,
    `split(sep)`, `sep.join(...)`, `endswith`, `repr` of a string and the
    code-point order that `sorted` uses on strings. */
module PyText {

  /** `c.isspace()` for a single character: every code point Python treats as
      whitespace. */
  predicate IsSpace(c: char) {
    if c < '\U{80}' then
      c == ' ' || ('\t' <= c <= '\r') || ('\U{1C}' <= c <= '\U{1F}')
    else
      || c == '\U{85}' || c == '\U{A0}' || c == '\U{1680}' || ('\U{2000}' <= c <= '\U{200A}')
      || c == '\U{2028}' || c == '\U{2029}' || c == '\U{202F}' || c == '\U{205F}' || c == '\U{3000}'
  }

  /** `s.lstrip()`: `s` without its leading whitespace. */
  function TrimLeft(s: string): (r: string)
    ensures |r| <= |s| && r == s[|s| - |r|..]
    ensures r == [] || !IsSpace(r[0])
    decreases |s|
  {
    if |s| > 0 && IsSpace(s[0]) then TrimLeft(s[1..]) else s
  }

  /** `s.rstrip()`: `s` without its trailing whitespace. */
  function TrimRight(s: string): (r: string)
    ensures |r| <= |s| && r == s[..|r|]
    ensures r == [] || !IsSpace(r[|r| - 1])
    decreases |s|
  {
    if |s| > 0 && IsSpace(s[|s| - 1]) then TrimRight(s[..|s| - 1]) else s
  }

  /** Every character of `s` is whitespace. */
  predicate AllSpace(s: string) {
    forall i :: 0 <= i < |s| ==> IsSpace(s[i])
  }

  /** `strip()` leaves nothing exactly when the string is all whitespace. */
  lemma {:induction false} StripEmptyIffAllSpace(s: string)
    ensures Strip(s) == [] <==> AllSpace(s)
  {
    StripIsSlice(s);
    var i := |s| - |TrimLeft(s)|;
    if Strip(s) == [] {
      assert TrimLeft(s) == [];
    } else {
      var r := Strip(s);
      assert r[0] == s[i];
    }
  }

  /** Neither end of `s` is whitespace. */
  predicate IsStripped(s: string) {
    s == [] || (!IsSpace(s[0]) && !IsSpace(s[|s| - 1]))
  }

  /** `s.strip()`: the longest slice of `s` that neither starts nor ends with
      whitespace, once the whitespace around it is cut away. */
  function Strip(s: string): (r: string)
    ensures IsStripped(r) && |r| <= |s|
  {
    TrimRight(TrimLeft(s))
  }

  /** What `strip()` cuts away is whitespace, and what it keeps is one slice of
      `s`: the slice that starts after the leading whitespace. */
  lemma {:induction false} StripIsSlice(s: string)
    ensures StrippedAt(s, Strip(s), |s| - |TrimLeft(s)|)
  {
    var l := TrimLeft(s);
    var r := TrimRight(l);
    assert Strip(s) == r;
    StripPieces(s, l, |s| - |l|, r);
  }

  /** A slice of a string without `c` has no `c` either. */
  lemma NotInSlice(s: string, r: string, i: nat, c: char)
    requires i + |r| <= |s| && r == s[i..i + |r|] && c !in s
    ensures c !in r
  {
    forall j | 0 <= j < |r| ensures r[j] != c {
      assert r[j] == s[i + j];
    }
  }

  /** `strip()` adds no character. */
  lemma StripKeepsOut(s: string, c: char)
    requires c !in s
    ensures c !in Strip(s)
  {
    StripIsSlice(s);
    NotInSlice(s, Strip(s), |s| - |TrimLeft(s)|, c);
  }

  lemma {:induction false} StripPieces(s: string, l: string, i: nat, r: string)
    requires l == TrimLeft(s) && i == |s| - |l| && r == TrimRight(l)
    ensures StrippedAt(s, r, i)
  {
    StripSlice(s, l, i);
    LeadingSpaces(s, l, i);
    TrailingSpaces(s, l, r, i);
    StrippedAtIntro(s, r, i);
  }

  lemma {:induction false} StrippedAtIntro(s: string, r: string, i: nat)
    requires i + |r| <= |s| && r == s[i..i + |r|]
    requires SpacesBefore(s, i) && SpacesFrom(s, i + |r|)
    ensures StrippedAt(s, r, i)
  {
  }

  lemma {:induction false} StripSlice(s: string, l: string, i: nat)
    requires l == TrimLeft(s) && i == |s| - |l|
    ensures l == s[i..] && TrimRight(l) == s[i..i + |TrimRight(l)|]
  {
    TrimLeftIsSuffix(s, l, i);
    TrimRightOfSuffix(s, l, i);
  }

  lemma {:induction false} TrimLeftIsSuffix(s: string, l: string, i: nat)
    requires l == TrimLeft(s) && i == |s| - |l|
    ensures l == s[i..]
  {
  }

  lemma {:induction false} TrimRightOfSuffix(s: string, l: string, i: nat)
    requires i <= |s| && l == s[i..]
    ensures TrimRight(l) == s[i..i + |TrimRight(l)|]
  {
    var r := TrimRight(l);
    PrefixOfSuffix(s, l, i, |r|);
  }

  lemma {:induction false} PrefixOfSuffix(s: string, l: string, i: nat, n: nat)
    requires i + n <= |s| && l == s[i..]
    ensures l[..n] == s[i..i + n]
  {
  }

  /** `lstrip()` only removes whitespace. */
  lemma {:induction false} LeadingSpaces(s: string, l: string, i: nat)
    requires l == TrimLeft(s) && i == |s| - |l|
    ensures SpacesBefore(s, i)
    decreases |s|
  {
    if |s| > 0 && IsSpace(s[0]) {
      LeadingSpaces(s[1..], l, i - 1);
      forall k | 1 <= k < i ensures IsSpace(s[k]) {
        assert s[k] == s[1..][k - 1];
      }
    }
  }

  /** `rstrip()` only removes whitespace. */
  lemma {:induction false} TrimRightSpaces(s: string)
    ensures forall k :: |TrimRight(s)| <= k < |s| ==> IsSpace(s[k])
    decreases |s|
  {
    if |s| > 0 && IsSpace(s[|s| - 1]) {
      var f := s[..|s| - 1];
      TrimRightSpaces(f);
      forall k | |TrimRight(s)| <= k < |s| - 1 ensures IsSpace(s[k]) {
        assert s[k] == f[k];
      }
    }
  }

  lemma {:induction false} TrailingSpaces(s: string, l: string, r: string, i: nat)
    requires i <= |s| && l == s[i..] && r == TrimRight(l)
    ensures SpacesFrom(s, i + |r|)
  {
    TrimRightSpaces(l);
    forall k | i + |r| <= k < |s| ensures IsSpace(s[k]) {
      assert s[k] == l[k - i];
    }
  }

  /** `r` is the slice of `s` starting at `i`, with only whitespace around it. */
  predicate StrippedAt(s: string, r: string, i: int) {
    && 0 <= i && i + |r| <= |s| && r == s[i..i + |r|]
    && SpacesBefore(s, i) && SpacesFrom(s, i + |r|)
  }

  /** The first `i` characters of `s` are whitespace. */
  predicate SpacesBefore(s: string, i: int) {
    forall k :: 0 <= k < i && k < |s| ==> IsSpace(s[k])
  }

  /** The characters of `s` from `j` on are whitespace. */
  predicate SpacesFrom(s: string, j: int) {
    forall k :: 0 <= j <= k < |s| ==> IsSpace(s[k])
  }

  /** Stripping a stripped string changes nothing, so `strip()` is idempotent. */
  lemma {:induction false} StripStripped(s: string)
    requires IsStripped(s)
    ensures Strip(s) == s
  {
  }

  /** `c.lower()` on the ASCII letters; every other character is unchanged. */
  function LowerChar(c: char): char {
    if 'A' <= c <= 'Z' then (c as int + 32) as char else c
  }

  /** No ASCII upper-case letter occurs in `s`. */
  predicate IsLower(s: string) {
    forall i :: 0 <= i < |s| ==> !('A' <= s[i] <= 'Z')
  }

  /** `s.lower()` on ASCII text. */
  function Lower(s: string): (r: string)
    ensures |r| == |s|
    ensures forall i :: 0 <= i < |s| ==> r[i] == LowerChar(s[i])
    decreases |s|
  {
    if s == [] then [] else [LowerChar(s[0])] + Lower(s[1..])
  }

  /** After `lower()` no ASCII upper-case letter is left, and only the upper-case
      letters changed, each to its lower-case partner 32 code points on. */
  lemma LowerResult(s: string)
    ensures IsLower(Lower(s))
    ensures forall i :: 0 <= i < |s| && !('A' <= s[i] <= 'Z') ==> Lower(s)[i] == s[i]
    ensures forall i :: 0 <= i < |s| && 'A' <= s[i] <= 'Z' ==> Lower(s)[i] as int == s[i] as int + 32
  {
    var r := Lower(s);
    forall i | 0 <= i < |r| ensures !('A' <= r[i] <= 'Z') {
      assert r[i] == LowerChar(s[i]);
    }
  }

  lemma LowerOfLower(s: string)
    requires IsLower(s)
    ensures Lower(s) == s
  {
  }

  /** A prefix of lower-case text is lower-case. */
  lemma PrefixIsLower(t: string, head: string)
    requires IsLower(t) && |head| <= |t| && head == t[..|head|]
    ensures IsLower(head)
  {
    forall i | 0 <= i < |head| ensures head[i] == t[i] { }
  }

  /** `lower()` keeps whitespace at neither end. */
  lemma LowerKeepsStripped(s: string)
    requires IsStripped(s)
    ensures IsStripped(Lower(s))
  {
  }

  /** `strip()` of lower-case text is lower-case. */
  lemma StripOfLowerIsLower(s: string)
    requires IsLower(s)
    ensures IsLower(Strip(s))
  {
    StripIsSlice(s);
  }

  /** `lower()` works character by character, so it distributes over `+`
      and over slicing. */
  lemma LowerConcat(a: string, b: string)
    ensures Lower(a + b) == Lower(a) + Lower(b)
  {
    var l, m := Lower(a + b), Lower(a) + Lower(b);
    forall i | 0 <= i < |l| ensures l[i] == m[i] {
      if i < |a| {
        assert (a + b)[i] == a[i];
      } else {
        assert (a + b)[i] == b[i - |a|];
      }
    }
    assert l == m;
  }

  lemma LowerSlice(s: string, i: nat, j: nat)
    requires i <= j <= |s|
    ensures Lower(s)[i..j] == Lower(s[i..j])
  {
    var l, m := Lower(s)[i..j], Lower(s[i..j]);
    forall k | 0 <= k < |l| ensures l[k] == m[k] {
      assert s[i..j][k] == s[i + k];
    }
  }

  /** `lower()` never produces a character that is not already there, unless
      it is a lower-case letter. */
  lemma LowerKeepsOut(s: string, c: char)
    requires c !in s && !('a' <= c <= 'z')
    ensures c !in Lower(s)
  {
    forall k | 0 <= k < |s| ensures Lower(s)[k] != c {
      assert s[k] in s;
    }
  }

  /** `lower()` turns whitespace into whitespace and nothing else into it. */
  lemma LowerCharSpace(c: char)
    ensures IsSpace(LowerChar(c)) == IsSpace(c)
  {
  }

  lemma {:induction false} TrimLeftLower(s: string)
    ensures TrimLeft(Lower(s)) == Lower(TrimLeft(s))
    decreases |s|
  {
    if s != [] {
      LowerCharSpace(s[0]);
      LowerSlice(s, 1, |s|);
      if IsSpace(s[0]) {
        TrimLeftLower(s[1..]);
      }
    }
  }

  lemma {:induction false} TrimRightLower(s: string)
    ensures TrimRight(Lower(s)) == Lower(TrimRight(s))
    decreases |s|
  {
    if s != [] {
      var n := |s| - 1;
      var l := Lower(s);
      LowerCharSpace(s[n]);
      assert l[n] == LowerChar(s[n]);
      if IsSpace(s[n]) {
        LowerSlice(s, 0, n);
        assert l[..n] == Lower(s[..n]);
        TrimRightLower(s[..n]);
        assert TrimRight(l) == TrimRight(l[..n]);
      } else {
        assert TrimRight(l) == l;
      }
    }
  }

  /** `strip()` and `lower()` commute. */
  lemma StripLower(s: string)
    ensures Strip(Lower(s)) == Lower(Strip(s))
  {
    TrimLeftLower(s);
    TrimRightLower(TrimLeft(s));
  }

  /** Dropping some of the leading whitespace first does not change what
      `lstrip()` keeps. */
  lemma {:induction false} TrimLeftAfterSpaces(s: string, i: nat)
    requires i <= |s| && SpacesBefore(s, i)
    ensures TrimLeft(s[i..]) == TrimLeft(s)
    decreases i
  {
    if i == 0 {
      assert s[i..] == s;
    } else {
      var t := s[1..];
      assert t[i - 1..] == s[i..];
      forall k | 0 <= k < i - 1 ensures IsSpace(t[k]) {
        assert t[k] == s[k + 1];
      }
      TrimLeftAfterSpaces(t, i - 1);
    }
  }

  /** `s.split(sep)` for a one-character separator: the pieces between the
      separators, so one more piece than there are separators. */
  function Split(s: string, sep: char): (r: seq<string>)
    ensures |r| >= 1
    ensures forall k :: 0 <= k < |r| ==> sep !in r[k]
    decreases |s|
  {
    if s == [] then [""]
    else
      var rest := Split(s[1..], sep);
      if s[0] == sep then [""] + rest
      else [[s[0]] + rest[0]] + rest[1..]
  }

  /** The first piece of `split` is a prefix of the string. */
  lemma {:induction false} SplitHeadIsPrefix(s: string, sep: char)
    ensures |Split(s, sep)[0]| <= |s| && Split(s, sep)[0] == s[..|Split(s, sep)[0]|]
    decreases |s|
  {
    if s != [] && s[0] != sep {
      SplitHeadIsPrefix(s[1..], sep);
    }
  }

  /** The first piece of `split` is everything before the first separator. */
  lemma {:induction false} SplitHeadAt(s: string, sep: char, n: nat)
    requires n < |s| && s[n] == sep && forall k :: 0 <= k < n ==> s[k] != sep
    ensures Split(s, sep)[0] == s[..n]
    decreases n
  {
    if n > 0 {
      var t := s[1..];
      assert forall k :: 0 <= k < n - 1 ==> t[k] == s[k + 1];
      SplitHeadAt(t, sep, n - 1);
      assert s[..n] == [s[0]] + t[..n - 1];
    }
  }

  /** Lower-casing does not move the first `(`: cutting the lower-cased text
      there gives the lower-cased text before it. */
  lemma LowerCutAt(r: string, m: nat)
    requires m < |r| && r[m] == '(' && '(' !in r[..m]
    ensures '(' in Lower(r) && Split(Lower(r), '(')[0] == Lower(r[..m])
  {
    var t := Lower(r);
    assert t[m] == '(';
    forall k | 0 <= k < m ensures t[k] != '(' {
      assert r[k] == r[..m][k];
      assert t[k] == LowerChar(r[k]);
    }
    SplitHeadAt(t, '(', m);
    LowerSlice(r, 0, m);
    assert r[0..m] == r[..m];
  }

  /** `sep.join(parts)`. */
  function Join(parts: seq<string>, sep: string): (r: string)
    decreases |parts|
  {
    if |parts| == 0 then ""
    else if |parts| == 1 then parts[0]
    else parts[0] + sep + Join(parts[1..], sep)
  }

  lemma JoinCons(p: string, parts: seq<string>, sep: string)
    requires |parts| >= 1
    ensures Join([p] + parts, sep) == p + sep + Join(parts, sep)
  {
    assert ([p] + parts)[1..] == parts;
  }

  /** A join starts with the first part and ends with the last, and
      joining nothing gives the empty string. */
  lemma {:induction false} JoinEnds(parts: seq<string>, sep: string)
    ensures parts == [] ==> Join(parts, sep) == ""
    ensures parts != [] ==> |parts[0]| <= |Join(parts, sep)| && Join(parts, sep)[..|parts[0]|] == parts[0]
    ensures parts != [] ==> EndsWith(Join(parts, sep), parts[|parts| - 1])
    decreases |parts|
  {
    if |parts| > 1 {
      var tail := Join(parts[1..], sep);
      JoinEnds(parts[1..], sep);
      assert Join(parts, sep) == parts[0] + sep + tail;
      assert parts[1..][|parts| - 2] == parts[|parts| - 1];
    }
  }

  /** Joining the pieces of a split with the separator gives back the string. */
  lemma {:induction false} JoinSplit(s: string, sep: char)
    ensures Join(Split(s, sep), [sep]) == s
    decreases |s|
  {
    if s != [] {
      var rest := Split(s[1..], sep);
      JoinSplit(s[1..], sep);
      if s[0] == sep {
        JoinCons("", rest, [sep]);
      } else if |rest| == 1 {
        assert Split(s, sep) == [[s[0]] + rest[0]];
      } else {
        JoinCons([s[0]] + rest[0], rest[1..], [sep]);
        JoinCons(rest[0], rest[1..], [sep]);
        assert [rest[0]] + rest[1..] == rest;
        assert s == [s[0]] + s[1..];
      }
    }
  }

  /** Splitting after a separator-free prefix glues the prefix to the first piece. */
  lemma {:induction false} SplitAfterPlain(a: string, t: string, sep: char)
    requires sep !in a
    ensures Split(a + t, sep) == [a + Split(t, sep)[0]] + Split(t, sep)[1..]
    decreases |a|
  {
    if a == [] {
      assert a + t == t;
      assert a + Split(t, sep)[0] == Split(t, sep)[0];
    } else {
      assert (a + t)[1..] == a[1..] + t;
      SplitAfterPlain(a[1..], t, sep);
      assert [a[0]] + (a[1..] + Split(t, sep)[0]) == a + Split(t, sep)[0];
    }
  }

  /** Splitting a join of separator-free pieces gives back the pieces. */
  lemma {:induction false} SplitJoin(parts: seq<string>, sep: char)
    requires |parts| >= 1
    requires forall k :: 0 <= k < |parts| ==> sep !in parts[k]
    ensures Split(Join(parts, [sep]), sep) == parts
    decreases |parts|
  {
    if |parts| == 1 {
      SplitAfterPlain(parts[0], "", sep);
      assert parts[0] + "" == parts[0];
    } else {
      var tail := Join(parts[1..], [sep]);
      SplitJoin(parts[1..], sep);
      assert Join(parts, [sep]) == parts[0] + ([sep] + tail);
      SplitAfterPlain(parts[0], [sep] + tail, sep);
      assert ([sep] + tail)[1..] == tail;
      assert Split([sep] + tail, sep) == [""] + parts[1..];
      assert parts[0] + "" == parts[0];
    }
  }

  /** `s.endswith(suffix)`. */
  predicate EndsWith(s: string, suffix: string) {
    |suffix| <= |s| && s[|s| - |suffix|..] == suffix
  }

  /** `s.endswith(suffix)` holds exactly when `s` is some string followed by
      `suffix`. */
  lemma EndsWithIff(s: string, suffix: string)
    ensures EndsWith(s, suffix) <==> exists p :: s == p + suffix
  {
    if EndsWith(s, suffix) {
      assert s == s[..|s| - |suffix|] + suffix;
    }
    forall p | s == p + suffix ensures EndsWith(s, suffix) {
      assert (p + suffix)[|p|..] == suffix;
    }
  }

  /** `t in s` for strings: `t` occurs in `s` as a contiguous piece. */
  predicate IsSubstring(t: string, s: string) {
    exists i :: 0 <= i <= |s| - |t| && OccursAt(t, s, i)
  }

  predicate OccursAt(t: string, s: string, i: int) {
    0 <= i <= |s| - |t| && s[i..i + |t|] == t
  }

  /** The quote `repr` puts around `s`: double quotes only when `s` holds a
      single quote and no double quote. */
  function ReprQuote(s: string): char {
    if '\'' in s && '"' !in s then '"' else '\''
  }

  function EscapeChar(c: char, quote: char): string {
    if c == '\\' then "\\\\"
    else if c == quote then ['\\', quote]
    else if c == '\n' then "\\n"
    else if c == '\r' then "\\r"
    else if c == '\t' then "\\t"
    else [c]
  }

  function Escape(s: string, quote: char): (r: string)
    ensures |r| >= |s|
    decreases |s|
  {
    if s == [] then "" else EscapeChar(s[0], quote) + Escape(s[1..], quote)
  }

  /** `repr(s)` of a string. */
  function Repr(s: string): (r: string)
    ensures |r| >= |s| + 2
    ensures r[0] == r[|r| - 1] == ReprQuote(s) && r[0] in {'\'', '"'}
  {
    var q := ReprQuote(s);
    [q] + Escape(s, q) + [q]
  }

  /** A string with nothing to escape is shown verbatim between single quotes. */
  lemma {:induction false} ReprPlain(s: string)
    requires forall i :: 0 <= i < |s| ==> s[i] !in {'\\', '\'', '\n', '\r', '\t'}
    ensures Repr(s) == "'" + s + "'"
  {
    EscapePlain(s, '\'');
  }

  lemma {:induction false} EscapePlain(s: string, quote: char)
    requires quote == '\''
    requires forall i :: 0 <= i < |s| ==> s[i] !in {'\\', '\'', '\n', '\r', '\t'}
    ensures Escape(s, quote) == s
    decreases |s|
  {
    if s != [] {
      EscapePlain(s[1..], quote);
      assert s == [s[0]] + s[1..];
    }
  }

  /** `a < b` on Python strings: lexicographic order on code points, a proper
      prefix sorting first. */
  predicate LexLess(a: string, b: string)
    decreases |a|
  {
    |b| > 0 && (|a| == 0 || a[0] < b[0] || (a[0] == b[0] && LexLess(a[1..], b[1..])))
  }

  /** The first difference decides the order. */
  lemma {:induction false} LexLessAt(a: string, b: string, i: nat)
    requires i < |a| && i < |b| && a[..i] == b[..i] && a[i] < b[i]
    ensures LexLess(a, b)
    decreases i
  {
    if i > 0 {
      assert a[0] == a[..i][0] == b[..i][0] == b[0];
      assert a[1..][..i - 1] == a[..i][1..] == b[..i][1..] == b[1..][..i - 1];
      LexLessAt(a[1..], b[1..], i - 1);
    }
  }

  lemma {:induction false} LexLessIrreflexive(a: string)
    ensures !LexLess(a, a)
    decreases |a|
  {
    if |a| > 0 {
      LexLessIrreflexive(a[1..]);
    }
  }

  lemma {:induction false} LexLessAsymmetric(a: string, b: string)
    requires LexLess(a, b)
    ensures !LexLess(b, a)
    decreases |a|
  {
    if |a| > 0 && a[0] == b[0] {
      LexLessAsymmetric(a[1..], b[1..]);
    }
  }

  lemma {:induction false} LexLessTransitive(a: string, b: string, c: string)
    requires LexLess(a, b) && LexLess(b, c)
    ensures LexLess(a, c)
    decreases |a|
  {
    if |a| > 0 && a[0] == b[0] && b[0] == c[0] {
      LexLessTransitive(a[1..], b[1..], c[1..]);
    }
  }

  lemma {:induction false} LexLessTotal(a: string, b: string)
    requires a != b
    ensures LexLess(a, b) || LexLess(b, a)
    decreases |a|
  {
    if |a| > 0 && |b| > 0 && a[0] == b[0] {
      assert a == [a[0]] + a[1..] && b == [b[0]] + b[1..];
      LexLessTotal(a[1..], b[1..]);
    }
  }

  /** Every element sorts strictly before every later one, as in the output of
      `sorted` on distinct strings. */
  predicate StrictlySorted(s: seq<string>) {
    forall i, j :: 0 <= i < j < |s| ==> LexLess(s[i], s[j])
  }

  /** Neighbours in order suffice for the whole sequence to be in order. */
  lemma {:induction false} AdjacentSorted(s: seq<string>)
    requires forall i :: 0 < i < |s| ==> LexLess(s[i - 1], s[i])
    ensures StrictlySorted(s)
    decreases |s|
  {
    if |s| > 1 {
      AdjacentSorted(s[1..]);
      forall j | 1 <= j < |s| ensures LexLess(s[0], s[j]) {
        assert s[1..][j - 1] == s[j];
        if j > 1 {
          assert s[1..][0] == s[1];
          LexLessTransitive(s[0], s[1], s[j]);
        }
      }
    }
  }

  /** There is only one strictly sorted arrangement of a set of strings. */
  lemma {:induction false} SortedUnique(s: seq<string>, t: seq<string>)
    requires StrictlySorted(s) && StrictlySorted(t)
    requires forall x :: x in s <==> x in t
    ensures s == t
    decreases |s|
  {
    if s == [] {
      if t != [] {
        HeadIsMember(t);
        assert false;
      }
    } else {
      assert s[0] in t;
      assert t != [];
      assert t[0] in s;
      if s[0] != t[0] {
        var i :| 0 <= i < |t| && t[i] == s[0];
        var j :| 0 <= j < |s| && s[j] == t[0];
        assert LexLess(t[0], s[0]);
        assert LexLess(s[0], t[0]);
        LexLessAsymmetric(s[0], t[0]);
        assert false;
      }
      forall x ensures x in s[1..] <==> x in t[1..] {
        SortedTailMembers(s, x);
        SortedTailMembers(t, x);
      }
      SortedUnique(s[1..], t[1..]);
    }
  }

  lemma HeadIsMember(t: seq<string>)
    requires t != []
    ensures t[0] in t
  {
  }

  lemma SortedTailMembers(s: seq<string>, x: string)
    requires StrictlySorted(s) && s != []
    ensures x in s[1..] <==> x in s && x != s[0]
  {
    if x in s[1..] {
      var k :| 1 <= k < |s| && s[k] == x;
      if x == s[0] {
        LexLessIrreflexive(x);
      }
    }
    if x in s && x != s[0] {
      var k :| 0 <= k < |s| && s[k] == x;
      assert s[1..][k - 1] == x;
    }
  }
}

/** The handful of Python `str` operations the bot relies on: `split` on a literal
    separator (with the `find` scan behind it), `strip()` with no argument,
    `lower()`, `endswith`, and the newline translation of reading a file in text
    mode, each defined on `seq<char>` and characterised by its contract and lemmas. */
module PyStr {
  import opened Wrappers

  /** Python's `str.isspace` for one code point: the characters `strip()` removes. */
  predicate IsSpace(c: char) {
    var n := c as int;
    (0x09 <= n <= 0x0D) || (0x1C <= n <= 0x20) || n == 0x85 || n == 0xA0 || n == 0x1680
    || (0x2000 <= n <= 0x200A) || n == 0x2028 || n == 0x2029 || n == 0x202F
    || n == 0x205F || n == 0x3000
  }

  /** Every character of `s` is whitespace (true of the empty string). */
  predicate AllSpace(s: string) {
    forall i :: 0 <= i < |s| ==> IsSpace(s[i])
  }

  /** The end of the whitespace run of `s` starting at `i`. */
  function SpaceEnd(s: string, i: nat): (k: nat)
    requires i <= |s|
    ensures i <= k <= |s|
    decreases |s| - i
  {
    if i < |s| && IsSpace(s[i]) then SpaceEnd(s, i + 1) else i
  }

  /** The start of the whitespace run of `s` ending at `j`, not before `lo`. */
  function SpaceStart(s: string, lo: nat, j: nat): (k: nat)
    requires lo <= j <= |s|
    ensures lo <= k <= j
  {
    if j > lo && IsSpace(s[j - 1]) then SpaceStart(s, lo, j - 1) else j
  }

  /** `s.strip()`: `s` without its leading and trailing whitespace. */
  function Strip(s: string): (r: string)
    ensures |r| <= |s|
  {
    var i := SpaceEnd(s, 0);
    s[i..SpaceStart(s, i, |s|)]
  }

  /** `SpaceEnd` stops at the first non-whitespace character at or after `i`. */
  lemma {:induction false} SpaceEndSpec(s: string, i: nat)
    requires i <= |s|
    ensures forall k :: i <= k < SpaceEnd(s, i) ==> IsSpace(s[k])
    ensures SpaceEnd(s, i) == |s| || !IsSpace(s[SpaceEnd(s, i)])
    decreases |s| - i
  {
    if i < |s| && IsSpace(s[i]) { SpaceEndSpec(s, i + 1); }
  }

  /** `SpaceStart` stops after the last non-whitespace character before `j`. */
  lemma {:induction false} SpaceStartSpec(s: string, lo: nat, j: nat)
    requires lo <= j <= |s|
    ensures forall k :: SpaceStart(s, lo, j) <= k < j ==> IsSpace(s[k])
    ensures SpaceStart(s, lo, j) == lo || !IsSpace(s[SpaceStart(s, lo, j) - 1])
  {
    if j > lo && IsSpace(s[j - 1]) { SpaceStartSpec(s, lo, j - 1); }
  }

  /** `strip()` gives a slice of `s` with only whitespace cut off either side. */
  lemma StripSlice(s: string)
    ensures exists i, j :: 0 <= i <= j <= |s| && Strip(s) == s[i..j] && AllSpace(s[..i]) && AllSpace(s[j..])
  {
    var i := SpaceEnd(s, 0);
    var j := SpaceStart(s, i, |s|);
    SpaceEndSpec(s, 0);
    SpaceStartSpec(s, i, |s|);
    assert AllSpace(s[..i]);
    assert AllSpace(s[j..]);
    assert Strip(s) == s[i..j];
  }

  /** `strip()` is empty exactly when `s` is whitespace only. */
  lemma StripEmpty(s: string)
    ensures Strip(s) == [] <==> AllSpace(s)
  {
    var i := SpaceEnd(s, 0);
    var j := SpaceStart(s, i, |s|);
    SpaceEndSpec(s, 0);
    SpaceStartSpec(s, i, |s|);
  }

  /** A non-empty `strip()` neither starts nor ends with whitespace. */
  lemma StripEnds(s: string)
    ensures Strip(s) != [] ==> !IsSpace(Strip(s)[0]) && !IsSpace(Strip(s)[|Strip(s)| - 1])
  {
    var i := SpaceEnd(s, 0);
    var j := SpaceStart(s, i, |s|);
    SpaceEndSpec(s, 0);
    SpaceStartSpec(s, i, |s|);
  }

  /** ASCII case folding: `lower()` restricted to `A`..`Z`. */
  function LowerChar(c: char): char {
    if 'A' <= c <= 'Z' then (c as int + 32) as char else c
  }

  /** `s.lower()` (ASCII letters only). */
  function Lower(s: string): (r: string)
    ensures |r| == |s|
    ensures forall i :: 0 <= i < |s| ==> r[i] == LowerChar(s[i])
  {
    seq(|s|, i requires 0 <= i < |s| => LowerChar(s[i]))
  }

  /** ASCII upper-casing of one character. */
  function UpperChar(c: char): char {
    if 'a' <= c <= 'z' then (c as int - 32) as char else c
  }

  /** `s.upper()` (ASCII letters only). */
  function Upper(s: string): (r: string)
    ensures |r| == |s|
    ensures forall i :: 0 <= i < |s| ==> r[i] == UpperChar(s[i])
  {
    seq(|s|, i requires 0 <= i < |s| => UpperChar(s[i]))
  }

  /** Lower-casing forgets whether a letter was upper-cased first. */
  lemma LowerUpper(s: string)
    ensures Lower(Upper(s)) == Lower(s)
  {
  }

  /** `s.endswith(suffix)`: `s` splits into a prefix followed by `suffix`. */
  predicate EndsWith(s: string, suffix: string)
    ensures EndsWith(s, suffix) ==> |suffix| <= |s| && s == s[..|s| - |suffix|] + suffix
  {
    |suffix| <= |s| && s[|s| - |suffix|..] == suffix
  }

  /** `s.endswith(suffixes)` for a tuple of suffixes: true if any one matches. */
  predicate EndsWithAny(s: string, suffixes: seq<string>)
    ensures EndsWithAny(s, suffixes) ==> exists k :: 0 <= k < |suffixes| && EndsWith(s, suffixes[k])
  {
    |suffixes| > 0 && (EndsWith(s, suffixes[0]) || EndsWithAny(s, suffixes[1..]))
  }

  /** The newline translation of a file opened in text mode (`open(path, "r")`):
      each `\r\n` and each lone `\r` becomes `\n`. */
  function UniversalNewlines(s: string): (r: string)
    ensures |r| <= |s|
    ensures forall i :: 0 <= i < |r| ==> r[i] != '\r'
  {
    if |s| == 0 then []
    else if s[0] == '\r' then "\n" + UniversalNewlines(if |s| > 1 && s[1] == '\n' then s[2..] else s[1..])
    else [s[0]] + UniversalNewlines(s[1..])
  }

  /** Translating newlines keeps the text whitespace only exactly when it was. */
  lemma {:induction false} UniversalNewlinesSpace(s: string)
    ensures AllSpace(UniversalNewlines(s)) <==> AllSpace(s)
    decreases |s|
  {
    if |s| > 0 {
      assert IsSpace('\r') && IsSpace('\n');
      AllSpaceCons(s[0], s[1..]);
      assert s == [s[0]] + s[1..];
      if s[0] == '\r' && |s| > 1 && s[1] == '\n' {
        UniversalNewlinesSpace(s[2..]);
        AllSpaceCons(s[1], s[2..]);
        assert s[1..] == [s[1]] + s[2..];
        AllSpaceCons('\n', UniversalNewlines(s[2..]));
      } else {
        UniversalNewlinesSpace(s[1..]);
        AllSpaceCons(if s[0] == '\r' then '\n' else s[0], UniversalNewlines(s[1..]));
        assert (if s[0] == '\r' then "\n" else [s[0]]) == [if s[0] == '\r' then '\n' else s[0]];
      }
    }
  }

  /** A stretch without `\r` is read as stored, and the translation goes on after it. */
  lemma {:induction false} UniversalNewlinesPrefix(a: string, t: string)
    requires '\r' !in a
    ensures UniversalNewlines(a + t) == a + UniversalNewlines(t)
    decreases |a|
  {
    if |a| > 0 {
      var s := a + t;
      assert s[0] == a[0] && s[1..] == a[1..] + t;
      UniversalNewlinesPrefix(a[1..], t);
      assert a == [a[0]] + a[1..];
    } else {
      assert a + t == t;
    }
  }

  /** Text without `\r` is read exactly as stored. */
  lemma UniversalNewlinesNoCR(s: string)
    requires '\r' !in s
    ensures UniversalNewlines(s) == s
  {
    UniversalNewlinesPrefix(s, []);
    assert s + [] == s;
  }

  /** `\r\n` is read as one newline. */
  lemma UniversalNewlinesCRLF(t: string)
    ensures UniversalNewlines("\r\n" + t) == "\n" + UniversalNewlines(t)
  {
    var s := "\r\n" + t;
    assert s[0] == '\r' && s[1] == '\n' && s[2..] == t;
  }

  /** A `\r` not followed by `\n` is read as one newline. */
  lemma UniversalNewlinesCR(t: string)
    requires t == [] || t[0] != '\n'
    ensures UniversalNewlines("\r" + t) == "\n" + UniversalNewlines(t)
  {
    var s := "\r" + t;
    assert s[0] == '\r' && s[1..] == t;
  }

  lemma AllSpaceCons(c: char, t: string)
    ensures AllSpace([c] + t) <==> IsSpace(c) && AllSpace(t)
  {
    var w := [c] + t;
    assert w[0] == c;
    assert forall i :: 0 <= i < |t| ==> t[i] == w[i + 1];
    assert forall i :: 1 <= i < |w| ==> w[i] == t[i - 1];
  }

  /** A file written with Windows line ends reads back with plain newlines. */
  lemma UniversalNewlinesExample()
    ensures UniversalNewlines("A\r\n\r\nB") == "A\n\nB"
  {
    var s := "A\r\n\r\nB";
    assert s[1..][2..] == "\r\nB";
    assert s[1..][2..][2..] == "B";
    assert UniversalNewlines("B") == "B" by { assert "B"[1..] == []; }
  }

  /** `sep` occurs in `s` starting at index `i`. */
  predicate Occurs(s: string, sep: string, i: nat) {
    i + |sep| <= |s| && s[i..i + |sep|] == sep
  }

  /** `sep` occurs nowhere in `s`. */
  predicate Free(s: string, sep: string) {
    forall j :: 0 <= j <= |s| ==> !Occurs(s, sep, j)
  }

  /** `s.find(sep)`: the leftmost index at which `sep` occurs, if any. */
  function Find(s: string, sep: string): (r: Option<nat>)
    ensures r.None? ==> Free(s, sep)
    ensures r.Some? ==> Occurs(s, sep, r.value) && forall j: nat :: j < r.value ==> !Occurs(s, sep, j)
  {
    FindFromSpec(s, sep, 0);
    if FindFrom(s, sep, 0).Some? then FindFromOccurs(s, sep, 0); FindFrom(s, sep, 0)
    else FindFrom(s, sep, 0)
  }

  /** `s.find(sep, i)`: the leftmost index at or after `i` at which `sep` occurs. */
  function FindFrom(s: string, sep: string, i: nat): (r: Option<nat>)
    requires i <= |s|
    ensures r.Some? ==> i <= r.value && r.value + |sep| <= |s|
    decreases |s| - i
  {
    if i + |sep| > |s| then None
    else if s[i..i + |sep|] == sep then Some(i)
    else FindFrom(s, sep, i + 1)
  }

  /** What `FindFrom` returns is an occurrence. */
  lemma {:induction false} FindFromOccurs(s: string, sep: string, i: nat)
    requires i <= |s| && FindFrom(s, sep, i).Some?
    ensures Occurs(s, sep, FindFrom(s, sep, i).value)
    decreases |s| - i
  {
    if i + |sep| <= |s| && s[i..i + |sep|] != sep {
      FindFromOccurs(s, sep, i + 1);
    }
  }

  /** `FindFrom` finds no occurrence before the one it returns, and returns `None`
      only when there is no occurrence at or after `i`. */
  lemma {:induction false} FindFromSpec(s: string, sep: string, i: nat)
    requires i <= |s|
    ensures var r := FindFrom(s, sep, i);
      && (r.None? ==> forall j :: i <= j <= |s| ==> !Occurs(s, sep, j))
      && (r.Some? ==> forall j: nat :: i <= j < r.value ==> !Occurs(s, sep, j))
    decreases |s| - i
  {
    if i + |sep| <= |s| && s[i..i + |sep|] != sep {
      FindFromSpec(s, sep, i + 1);
    }
  }

  /** `s.split(sep)`: the pieces between the leftmost non-overlapping occurrences of
      `sep`, scanned from the left. Python refuses an empty separator. */
  function Split(s: string, sep: string): (r: seq<string>)
    requires |sep| > 0
    ensures |r| >= 1
  {
    SplitFrom(s, sep, 0)
  }

  /** The pieces of `s[i..]`: the scan of `split` resumed at index `i`. */
  function SplitFrom(s: string, sep: string, i: nat): (r: seq<string>)
    requires |sep| > 0 && i <= |s|
    ensures |r| >= 1
    decreases |s| - i
  {
    match FindFrom(s, sep, i)
    case None => [s[i..]]
    case Some(k) => [s[i..k]] + SplitFrom(s, sep, k + |sep|)
  }

  /** `sep.join(parts)`. */
  function Join(parts: seq<string>, sep: string): string {
    if |parts| == 0 then []
    else if |parts| == 1 then parts[0]
    else parts[0] + sep + Join(parts[1..], sep)
  }

  /** An occurrence inside the slice `s[a..b]` is an occurrence in `s`. */
  lemma OccursInSlice(s: string, sep: string, a: nat, b: nat, j: nat)
    requires a <= b <= |s| && Occurs(s[a..b], sep, j)
    ensures Occurs(s, sep, a + j)
  {
    var n := |sep|;
    var u := s[a..b];
    assert j + n <= |u|;
    forall t | 0 <= t < n ensures s[a + j..a + j + n][t] == sep[t] {
      assert u[j..j + n][t] == sep[t];
      assert u[j + t] == s[a + j + t];
    }
    assert s[a + j..a + j + n] == sep;
  }

  /** One step of the scan: a separator found at `k` closes the piece `s[i..k]`. */
  lemma SplitFromStep(s: string, sep: string, i: nat, k: nat)
    requires |sep| > 0 && i <= |s| && FindFrom(s, sep, i) == Some(k)
    ensures SplitFrom(s, sep, i) == [s[i..k]] + SplitFrom(s, sep, k + |sep|)
  {
  }

  /** The last step of the scan: with no separator left, the rest is the last piece. */
  lemma SplitFromEnd(s: string, sep: string, i: nat)
    requires |sep| > 0 && i <= |s| && FindFrom(s, sep, i).None?
    ensures SplitFrom(s, sep, i) == [s[i..]]
  {
  }

  /** With no occurrence at or after `i`, the suffix `s[i..]` holds no separator. */
  lemma SuffixFree(s: string, sep: string, i: nat)
    requires i <= |s| && forall j :: i <= j <= |s| ==> !Occurs(s, sep, j)
    ensures Free(s[i..], sep)
  {
    forall j | 0 <= j <= |s[i..]| ensures !Occurs(s[i..], sep, j) {
      if Occurs(s[i..], sep, j) {
        assert s[i..|s|] == s[i..];
        OccursInSlice(s, sep, i, |s|, j);
      }
    }
  }

  /** The last piece of a split holds no separator. */
  lemma SplitLastFree(s: string, sep: string)
    requires |sep| > 0
    ensures var r := Split(s, sep); Free(r[|r| - 1], sep)
  {
    SplitFromLastFree(s, sep, 0);
  }

  lemma {:induction false} SplitFromLastFree(s: string, sep: string, i: nat)
    requires |sep| > 0 && i <= |s|
    ensures var r := SplitFrom(s, sep, i); Free(r[|r| - 1], sep)
    decreases |s| - i
  {
    var f := FindFrom(s, sep, i);
    if f.None? {
      FindFromSpec(s, sep, i);
      SplitFromEnd(s, sep, i);
      SuffixFree(s, sep, i);
    } else {
      var k := f.value;
      SplitFromStep(s, sep, i, k);
      SplitFromLastFree(s, sep, k + |sep|);
      var rest := SplitFrom(s, sep, k + |sep|);
      assert SplitFrom(s, sep, i)[|rest|] == rest[|rest| - 1];
    }
  }

  /** Every piece of a split but the last, once the separator is put back after it,
      holds its leftmost separator at its end: `split` cuts at leftmost occurrences. */
  lemma SplitLeftmost(s: string, sep: string, k: nat)
    requires |sep| > 0 && k < |Split(s, sep)| - 1
    ensures var p := Split(s, sep)[k]; Find(p + sep, sep) == Some(|p|)
  {
    var a, m := PieceAt(s, sep, 0, k);
    PieceLeftmost(s, sep, a, m);
  }

  /** Where a piece other than the last comes from: a scan resumed at `a` that found
      the separator at `m`. */
  lemma {:induction false} PieceAt(s: string, sep: string, i: nat, k: nat) returns (a: nat, m: nat)
    requires |sep| > 0 && i <= |s| && k < |SplitFrom(s, sep, i)| - 1
    ensures a <= |s| && FindFrom(s, sep, a) == Some(m) && SplitFrom(s, sep, i)[k] == s[a..m]
    decreases |s| - i
  {
    var f := FindFrom(s, sep, i);
    assert f.Some? by {
      if f.None? { SplitFromEnd(s, sep, i); }
    }
    var j := f.value;
    SplitFromStep(s, sep, i, j);
    var rest := SplitFrom(s, sep, j + |sep|);
    if k == 0 {
      a, m := i, j;
    } else {
      assert k - 1 < |rest| - 1;
      assert SplitFrom(s, sep, i)[k] == rest[k - 1];
      a, m := PieceAt(s, sep, j + |sep|, k - 1);
    }
  }

  /** The piece a split cuts at `m`, with the separator put back, has its leftmost
      separator at its end. */
  lemma PieceLeftmost(s: string, sep: string, i: nat, m: nat)
    requires i <= |s| && FindFrom(s, sep, i) == Some(m)
    ensures FindFrom(s[i..m] + sep, sep, 0) == Some(m - i)
  {
    FindFromSpec(s, sep, i);
    FindFromOccurs(s, sep, i);
    var t := s[i..m] + sep;
    assert t == s[i..m + |sep|];
    assert t[m - i..m - i + |sep|] == sep;
    forall j: nat | j < m - i ensures !Occurs(t, sep, j) {
      if Occurs(t, sep, j) { OccursInSlice(s, sep, i, m + |sep|, j); }
    }
    FindFromFirst(t, sep, 0, m - i);
  }

  /** An occurrence at `m` with none in `[i, m)` is what `FindFrom` returns. */
  lemma {:induction false} FindFromFirst(s: string, sep: string, i: nat, m: nat)
    requires i <= m && Occurs(s, sep, m)
    requires forall j: nat :: i <= j < m ==> !Occurs(s, sep, j)
    ensures FindFrom(s, sep, i) == Some(m)
    decreases m - i
  {
    if i < m {
      assert !Occurs(s, sep, i);
      FindFromFirst(s, sep, i + 1, m);
    }
  }

  /** No piece of a split holds the separator. */
  lemma SplitPieceFree(s: string, sep: string, k: nat)
    requires |sep| > 0 && k < |Split(s, sep)|
    ensures Free(Split(s, sep)[k], sep)
  {
    var r := Split(s, sep);
    if k < |r| - 1 {
      var p := r[k];
      SplitLeftmost(s, sep, k);
      forall j | 0 <= j <= |p| ensures !Occurs(p, sep, j) {
        if Occurs(p, sep, j) {
          assert (p + sep)[..|p|] == p;
          OccursInSlice(p + sep, sep, 0, |p|, j);
        }
      }
    } else {
      SplitLastFree(s, sep);
    }
  }

  /** Stripping a string that holds no separator leaves one that holds none. */
  lemma StripFree(s: string, sep: string)
    requires Free(s, sep)
    ensures Free(Strip(s), sep)
  {
    StripSlice(s);
    var i, j :| 0 <= i <= j <= |s| && Strip(s) == s[i..j] && AllSpace(s[..i]) && AllSpace(s[j..]);
    forall t | 0 <= t <= |Strip(s)| ensures !Occurs(Strip(s), sep, t) {
      if Occurs(Strip(s), sep, t) { OccursInSlice(s, sep, i, j, t); }
    }
  }

  /** Joining the pieces of a split with the same separator gives back the string. */
  lemma SplitJoin(s: string, sep: string)
    requires |sep| > 0
    ensures Join(Split(s, sep), sep) == s
  {
    SplitFromJoin(s, sep, 0);
    assert s[0..] == s;
  }

  lemma {:induction false} SplitFromJoin(s: string, sep: string, i: nat)
    requires |sep| > 0 && i <= |s|
    ensures Join(SplitFrom(s, sep, i), sep) == s[i..]
    decreases |s| - i
  {
    var f := FindFrom(s, sep, i);
    if f.None? {
      SplitFromEnd(s, sep, i);
    } else {
      var k := f.value;
      var l := k + |sep|;
      SplitFromStep(s, sep, i, k);
      SplitFromJoin(s, sep, l);
      FindFromOccurs(s, sep, i);
      SliceAround(s, sep, i, k, l);
      JoinStep(s[i..k], SplitFrom(s, sep, l), sep, s[l..], s[i..]);
    }
  }

  /** `s[i..]` is `s[i..k]`, then the separator found at `k`, then `s[l..]`. */
  lemma SliceAround(s: string, sep: string, i: nat, k: nat, l: nat)
    requires i <= k <= l <= |s| && s[k..l] == sep
    ensures s[i..] == s[i..k] + sep + s[l..]
  {
  }

  /** Joining a piece in front of pieces that join to `tail`. */
  lemma JoinStep(head: string, rest: seq<string>, sep: string, tail: string, whole: string)
    requires |rest| >= 1 && Join(rest, sep) == tail && whole == head + sep + tail
    ensures Join([head] + rest, sep) == whole
  {
    JoinCons(head, rest, sep);
  }

  lemma JoinCons(head: string, rest: seq<string>, sep: string)
    requires |rest| >= 1
    ensures Join([head] + rest, sep) == head + sep + Join(rest, sep)
  {
    assert ([head] + rest)[1..] == rest;
  }

  /** A join of whitespace-only pieces with a whitespace separator is whitespace only,
      and conversely. */
  lemma {:induction false} AllSpaceJoin(parts: seq<string>, sep: string)
    requires AllSpace(sep)
    ensures AllSpace(Join(parts, sep)) <==> forall k :: 0 <= k < |parts| ==> AllSpace(parts[k])
  {
    if |parts| > 1 {
      AllSpaceJoin(parts[1..], sep);
      var j := Join(parts[1..], sep);
      var w := parts[0] + sep + j;
      assert Join(parts, sep) == w;
      assert AllSpace(w) <==> AllSpace(parts[0]) && AllSpace(j) by {
        if AllSpace(w) {
          assert forall i :: 0 <= i < |parts[0]| ==> parts[0][i] == w[i];
          assert forall i :: 0 <= i < |j| ==> j[i] == w[|parts[0]| + |sep| + i];
        }
      }
      forall k | 1 <= k < |parts| ensures parts[k] == parts[1..][k - 1] { }
    }
  }

  /** `endswith` means "is some string followed by the suffix". */
  lemma EndsWithIff(s: string, suffix: string)
    ensures EndsWith(s, suffix) <==> exists p :: s == p + suffix
  {
    if EndsWith(s, suffix) {
      assert s == s[..|s| - |suffix|] + suffix;
    }
    if p :| s == p + suffix {
      assert s[|s| - |suffix|..] == suffix;
    }
  }

  /** The tuple form of `endswith` matches exactly when one member of the tuple does. */
  lemma {:induction false} EndsWithAnyIff(s: string, suffixes: seq<string>)
    ensures EndsWithAny(s, suffixes) <==> exists k :: 0 <= k < |suffixes| && EndsWith(s, suffixes[k])
  {
    if |suffixes| > 0 {
      EndsWithAnyIff(s, suffixes[1..]);
      if k :| 0 <= k < |suffixes| && EndsWith(s, suffixes[k]) {
        if k > 0 { assert suffixes[1..][k - 1] == suffixes[k]; }
      }
    }
  }

  /** Stripping twice strips nothing more. */
  lemma StripIdempotent(s: string)
    ensures Strip(Strip(s)) == Strip(s)
  {
    StripEnds(s);
    StripTrimmed(Strip(s));
  }

  /** A string with no whitespace at either end is its own `strip()`. */
  lemma StripTrimmed(r: string)
    requires r == [] || (!IsSpace(r[0]) && !IsSpace(r[|r| - 1]))
    ensures Strip(r) == r
  {
    assert r[0..|r|] == r;
  }
}

/**
 * The handful of JavaScript string and array built-ins the services rely on,
 * on strings as sequences of characters: `startsWith`, `endsWith`, `includes`,
 * `trim`, `split` with a one-character separator, and `filter`.
 */
module JsString {

  /** The characters `String.prototype.trim` removes and the regular-expression
      class `\s` matches: ECMAScript's WhiteSpace and LineTerminator. */
  predicate IsWhitespace(c: char) {
    c as int in WhitespaceCodes || 0x2000 <= c as int <= 0x200A
  }

  /** The code points of `\s` outside the range U+2000 to U+200A. */
  const WhitespaceCodes: set<int> :=
    {0x09, 0x0A, 0x0B, 0x0C, 0x0D, 0x20, 0xA0, 0x1680, 0x2028, 0x2029, 0x202F, 0x205F, 0x3000, 0xFEFF}

  /** `s.startsWith(p)`. */
  predicate StartsWith(s: string, p: string) {
    p <= s
  }

  /** `s.endsWith(p)`. */
  predicate EndsWith(s: string, p: string) {
    |p| <= |s| && s[|s| - |p|..] == p
  }

  /** `s.includes(t)`: some suffix of `s` starts with `t`. */
  predicate Contains(s: string, t: string)
    decreases |s|
  {
    t <= s || (s != [] && Contains(s[1..], t))
  }

  lemma {:induction false} ContainsAt(s: string, t: string, i: nat)
    requires i <= |s| && t <= s[i..]
    ensures Contains(s, t)
    decreases i
  {
    if i > 0 {
      assert s[1..][i - 1..] == s[i..];
      ContainsAt(s[1..], t, i - 1);
    }
  }

  lemma {:induction false} ContainsWitness(s: string, t: string)
    requires Contains(s, t)
    ensures exists i :: 0 <= i <= |s| && t <= s[i..]
    decreases |s|
  {
    if t <= s {
      assert s[0..] == s;
    } else {
      ContainsWitness(s[1..], t);
      var i :| 0 <= i <= |s[1..]| && t <= s[1..][i..];
      assert s[1..][i..] == s[i + 1..];
    }
  }

  /** `includes` holds exactly when `t` occurs at some position of `s`. */
  lemma ContainsIffOccurs(s: string, t: string)
    ensures Contains(s, t) <==> exists i :: 0 <= i <= |s| && t <= s[i..]
  {
    if Contains(s, t) {
      ContainsWitness(s, t);
    }
    if exists i :: 0 <= i <= |s| && t <= s[i..] {
      var i :| 0 <= i <= |s| && t <= s[i..];
      ContainsAt(s, t, i);
    }
  }

  /** A string includes each of its slices. */
  lemma ContainsSlice(s: string, i: nat, j: nat)
    requires i <= j <= |s|
    ensures Contains(s, s[i..j])
  {
    assert s[i..j] <= s[i..];
    ContainsAt(s, s[i..j], i);
  }

  /** A string is in every string it is a slice of. */
  lemma SliceContained(s: string, t: string, i: nat)
    requires i + |t| <= |s| && t == s[i..i + |t|]
    ensures Contains(s, t)
  {
    ContainsSlice(s, i, i + |t|);
  }

  /** What a string includes, every extension of it includes. */
  lemma ContainsInLonger(s: string, t: string, rest: string)
    requires Contains(s, t)
    ensures Contains(s + rest, t)
  {
    ContainsWitness(s, t);
    var i :| 0 <= i <= |s| && t <= s[i..];
    assert (s + rest)[i..] == s[i..] + rest;
    ContainsAt(s + rest, t, i);
  }

  /** What a suffix includes, the whole string includes. */
  lemma ContainsInSuffix(s: string, t: string, n: nat)
    requires n <= |s| && Contains(s[n..], t)
    ensures Contains(s, t)
  {
    ContainsWitness(s[n..], t);
    var i :| 0 <= i <= |s[n..]| && t <= s[n..][i..];
    assert s[n..][i..] == s[n + i..];
    ContainsAt(s, t, n + i);
  }

  function Clamp(i: int, len: nat): (r: nat)
    ensures r <= len
  {
    if i < 0 then 0 else if i > len then len else i
  }

  /** `s.substring(start, end)` for integer bounds: both are clamped to
      `[0, |s|]` and swapped when `start` ends up past `end`. */
  function Substring(s: string, start: int, end: int): (r: string)
    ensures |r| <= |s|
    ensures 0 <= start <= end <= |s| ==> r == s[start..end]
    ensures 0 <= start <= |s| <= end ==> r == s[start..]
    ensures 0 <= end <= start <= |s| ==> r == s[end..start]
    ensures start <= 0 && 0 <= end <= |s| ==> r == s[..end]
  {
    var a := Clamp(start, |s|);
    var b := Clamp(end, |s|);
    if a <= b then s[a..b] else s[b..a]
  }

  /** The number of whitespace characters `s` starts with. */
  function LeadingSpace(s: string): (n: nat)
    ensures n <= |s|
    ensures forall k :: 0 <= k < n ==> IsWhitespace(s[k])
    ensures n < |s| ==> !IsWhitespace(s[n])
    decreases |s|
  {
    if s != [] && IsWhitespace(s[0]) then 1 + LeadingSpace(s[1..]) else 0
  }

  /** The number of whitespace characters `s` ends with. */
  function TrailingSpace(s: string): (n: nat)
    ensures n <= |s|
    ensures forall k :: |s| - n <= k < |s| ==> IsWhitespace(s[k])
    ensures n < |s| ==> !IsWhitespace(s[|s| - 1 - n])
    decreases |s|
  {
    if s != [] && IsWhitespace(s[|s| - 1]) then 1 + TrailingSpace(s[..|s| - 1]) else 0
  }

  /** `s.trim()`: whitespace removed at both ends; what is left neither starts
      nor ends with whitespace. */
  function Trim(s: string): (r: string)
    ensures |r| <= |s|
    ensures r != [] ==> !IsWhitespace(r[0]) && !IsWhitespace(r[|r| - 1])
  {
    var t := s[LeadingSpace(s)..];
    t[..|t| - TrailingSpace(t)]
  }

  /** Trimming keeps an infix of `s` and removes only whitespace: everything
      before the infix and everything after it is whitespace. */
  lemma TrimRemovesOnlyWhitespace(s: string)
    ensures var i, r := LeadingSpace(s), Trim(s);
      && i + |r| <= |s| && r == s[i..i + |r|]
      && (forall k :: 0 <= k < i ==> IsWhitespace(s[k]))
      && (forall k :: i + |r| <= k < |s| ==> IsWhitespace(s[k]))
  {
    TrimIsInfix(s);
    TrimDropsTrailingSpace(s);
  }

  lemma TrimIsInfix(s: string)
    ensures LeadingSpace(s) + |Trim(s)| <= |s| && Trim(s) == s[LeadingSpace(s)..LeadingSpace(s) + |Trim(s)|]
  {
    var i := LeadingSpace(s);
    var t := s[i..];
    var m := |t| - TrailingSpace(t);
    assert Trim(s) == t[..m];
    PrefixOfSuffix(s, i, m);
  }

  lemma PrefixOfSuffix(s: string, i: nat, m: nat)
    requires i + m <= |s|
    ensures s[i..][..m] == s[i..i + m]
  {
  }

  lemma TrimDropsTrailingSpace(s: string)
    ensures forall k :: LeadingSpace(s) + |Trim(s)| <= k < |s| ==> IsWhitespace(s[k])
  {
    var i := LeadingSpace(s);
    var t := s[i..];
    var m := |t| - TrailingSpace(t);
    assert |Trim(s)| == m;
    WhitespaceAfterInSuffix(s, i, m);
  }

  /** Whitespace at the end of a suffix of `s` is whitespace at the end of `s`. */
  lemma WhitespaceAfterInSuffix(s: string, i: nat, m: nat)
    requires i + m <= |s|
    requires forall k :: m <= k < |s[i..]| ==> IsWhitespace(s[i..][k])
    ensures forall k :: i + m <= k < |s| ==> IsWhitespace(s[k])
  {
    forall k | i + m <= k < |s|
      ensures IsWhitespace(s[k])
    {
      assert s[k] == s[i..][k - i];
    }
  }

  /** Trimming twice is trimming once. */
  lemma TrimIdempotent(s: string)
    ensures Trim(Trim(s)) == Trim(s)
  {
    var r := Trim(s);
    if r != [] {
      assert LeadingSpace(r) == 0;
      assert r[0..] == r;
      assert TrailingSpace(r) == 0;
    }
  }

  /** `s.split(sep)` for a one-character separator: the pieces between
      separators, empty pieces included; `""` splits into `[""]`. */
  function Split(s: string, sep: char): (parts: seq<string>)
    ensures |parts| >= 1
    ensures forall k :: 0 <= k < |parts| ==> sep !in parts[k]
    decreases |s|
  {
    if s == [] then [""]
    else
      var rest := Split(s[1..], sep);
      if s[0] == sep then [""] + rest
      else [[s[0]] + rest[0]] + rest[1..]
  }

  /** `parts.join(sep)`. */
  function Join(parts: seq<string>, sep: char): string
    requires |parts| >= 1
    decreases |parts|
  {
    if |parts| == 1 then parts[0] else parts[0] + [sep] + Join(parts[1..], sep)
  }

  /** Joining the pieces back with the separator gives the original string. */
  lemma {:induction false} JoinSplit(s: string, sep: char)
    ensures Join(Split(s, sep), sep) == s
    decreases |s|
  {
    if s != [] {
      JoinSplit(s[1..], sep);
      var rest := Split(s[1..], sep);
      if s[0] != sep {
        if |rest| == 1 {
        } else {
          assert rest == [rest[0]] + rest[1..];
          assert Join(rest, sep) == rest[0] + [sep] + Join(rest[1..], sep);
        }
      }
    }
  }

  /** Splitting a join of separator-free pieces gives the pieces back. */
  lemma {:induction false} SplitJoin(parts: seq<string>, sep: char)
    requires |parts| >= 1
    requires forall k :: 0 <= k < |parts| ==> sep !in parts[k]
    ensures Split(Join(parts, sep), sep) == parts
    decreases |parts|
  {
    if |parts| == 1 {
      SplitOfPiece(parts[0], sep);
    } else {
      SplitJoin(parts[1..], sep);
      SplitPieceThen(parts[0], Join(parts[1..], sep), sep);
      assert [parts[0]] + parts[1..] == parts;
    }
  }

  /** Text without the separator splits into itself. */
  lemma {:induction false} SplitOfPiece(p: string, sep: char)
    requires sep !in p
    ensures Split(p, sep) == [p]
    decreases |p|
  {
    if p != [] {
      SplitOfPiece(p[1..], sep);
      assert [p[0]] + p[1..] == p;
    }
  }

  /** A separator-free piece followed by the separator splits off as the
      first piece. */
  lemma {:induction false} SplitPieceThen(p: string, rest: string, sep: char)
    requires sep !in p
    ensures Split(p + [sep] + rest, sep) == [p] + Split(rest, sep)
    decreases |p|
  {
    var s := p + [sep] + rest;
    if p == [] {
      assert s[1..] == rest;
    } else {
      assert s[1..] == p[1..] + [sep] + rest;
      SplitPieceThen(p[1..], rest, sep);
      assert [p[0]] + p[1..] == p;
    }
  }

  /** Splitting at a separator between two strings splits each of them. */
  lemma {:induction false} SplitAppend(a: string, b: string, sep: char)
    ensures Split(a + [sep] + b, sep) == Split(a, sep) + Split(b, sep)
    decreases |a|
  {
    var s := a + [sep] + b;
    if a == [] {
      assert s == [sep] + b;
      assert s[1..] == b;
    } else {
      assert s[0] == a[0];
      assert s[1..] == a[1..] + [sep] + b;
      SplitAppend(a[1..], b, sep);
    }
  }

  /** `xs.filter(keep)`: the elements that pass, in their original order. */
  function Filter<T>(xs: seq<T>, keep: T -> bool): (r: seq<T>)
    ensures |r| <= |xs|
    ensures forall k :: 0 <= k < |r| ==> r[k] in xs && keep(r[k])
    ensures forall k :: 0 <= k < |xs| && keep(xs[k]) ==> xs[k] in r
    decreases |xs|
  {
    if xs == [] then []
    else if keep(xs[0]) then [xs[0]] + Filter(xs[1..], keep)
    else Filter(xs[1..], keep)
  }

  /** Filtering distributes over concatenation: it keeps the relative order. */
  lemma {:induction false} FilterAppend<T>(xs: seq<T>, ys: seq<T>, keep: T -> bool)
    ensures Filter(xs + ys, keep) == Filter(xs, keep) + Filter(ys, keep)
    decreases |xs|
  {
    if xs != [] {
      assert (xs + ys)[0] == xs[0];
      assert (xs + ys)[1..] == xs[1..] + ys;
      FilterAppend(xs[1..], ys, keep);
      if keep(xs[0]) {
        assert Filter(xs, keep) == [xs[0]] + Filter(xs[1..], keep);
      }
    } else {
      assert xs + ys == ys;
    }
  }

  /** Filtering a list extended by one element extends the filtered list by
      that element exactly when it passes. */
  lemma FilterSnoc<T>(xs: seq<T>, x: T, keep: T -> bool)
    ensures Filter(xs + [x], keep) == Filter(xs, keep) + (if keep(x) then [x] else [])
  {
    FilterAppend(xs, [x], keep);
    assert [x][1..] == [];
  }
}

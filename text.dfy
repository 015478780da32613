/**
 * String operations of the JavaScript runtime that the build script relies on:
 * prefix and suffix tests, `indexOf`, `split` on one character, `repeat`,
 * `trim`, and `replace` with a string or a literal regular expression,
 * including the `$` patterns that `replace` expands in its replacement text.
 */
module Text {
  import opened Options

  predicate StartsWith(s: string, p: string)
  {
    |p| <= |s| && s[..|p|] == p
  }

  predicate EndsWith(s: string, p: string)
  {
    |p| <= |s| && s[|s| - |p|..] == p
  }

  /** `q` occurs in `s` starting at index `k`. */
  predicate OccursAt(s: string, q: string, k: int)
  {
    0 <= k && k + |q| <= |s| && s[k..k + |q|] == q
  }

  predicate Occurs(s: string, q: string)
  {
    exists k | 0 <= k <= |s| :: OccursAt(s, q, k)
  }

  /** No character of `a` appears in `b`. */
  predicate NoCommonChar(a: string, b: string)
  {
    forall c :: c in a ==> c !in b
  }

  /** `String.prototype.indexOf(pat, from)`: the least index at or after `from` where `pat` occurs. */
  function IndexOfFrom(s: string, pat: string, from: nat): (r: Option<nat>)
    decreases |s| - from
    ensures r.Some? ==> from <= r.value && OccursAt(s, pat, r.value)
    ensures r.Some? ==> forall k :: from <= k < r.value ==> !OccursAt(s, pat, k)
    ensures r.None? ==> forall k :: from <= k ==> !OccursAt(s, pat, k)
  {
    if from + |pat| > |s| then None
    else if s[from..from + |pat|] == pat then Some(from)
    else IndexOfFrom(s, pat, from + 1)
  }

  function IndexOf(s: string, pat: string): Option<nat>
  {
    IndexOfFrom(s, pat, 0)
  }

  /** The index of the last occurrence of `c` in `s`, if any. */
  function LastIndexOfChar(s: string, c: char): (r: Option<nat>)
    ensures r.Some? ==> r.value < |s| && s[r.value] == c && c !in s[r.value + 1..]
    ensures r.None? ==> c !in s
  {
    if |s| == 0 then None
    else if s[|s| - 1] == c then Some(|s| - 1)
    else
      var r := LastIndexOfChar(s[..|s| - 1], c);
      assert s == s[..|s| - 1] + [s[|s| - 1]];
      r
  }

  lemma {:induction false} LastIndexOfCharAt(a: string, c: char, b: string)
    requires c !in b
    ensures LastIndexOfChar(a + [c] + b, c) == Some(|a|)
    decreases |b|
  {
    var s := a + [c] + b;
    if |b| > 0 {
      assert s[|s| - 1] == b[|b| - 1];
      assert s[..|s| - 1] == a + [c] + b[..|b| - 1];
      LastIndexOfCharAt(a, c, b[..|b| - 1]);
    }
  }

  /** `s` repeated `n` times (`String.prototype.repeat`). */
  function Repeat(s: string, n: nat): (r: string)
    ensures |r| == n * |s|
  {
    if n == 0 then "" else s + Repeat(s, n - 1)
  }

  /** The number of occurrences of `c` in `s`. */
  function Count(s: string, c: char): nat
  {
    if |s| == 0 then 0 else (if s[0] == c then 1 else 0) + Count(s[1..], c)
  }

  lemma {:induction false} CountAppend(a: string, b: string, c: char)
    ensures Count(a + b, c) == Count(a, c) + Count(b, c)
  {
    if |a| > 0 {
      assert (a + b)[1..] == a[1..] + b;
      CountAppend(a[1..], b, c);
    } else {
      assert a + b == b;
    }
  }

  lemma {:induction false} CountAbsent(s: string, c: char)
    requires c !in s
    ensures Count(s, c) == 0
  {
    if |s| > 0 {
      assert s[0] != c;
      CountAbsent(s[1..], c);
    }
  }

  /** `String.prototype.split` with a one-character separator: never empty, keeps empty pieces. */
  function Split(s: string, c: char): (r: seq<string>)
    ensures |r| >= 1
    decreases |s|
  {
    if |s| == 0 then [""]
    else
      var rest := Split(s[1..], c);
      if s[0] == c then [""] + rest else [[s[0]] + rest[0]] + rest[1..]
  }

  /** `Array.prototype.join` with a one-character separator. */
  function Join(parts: seq<string>, c: char): string
  {
    if |parts| == 0 then ""
    else if |parts| == 1 then parts[0]
    else parts[0] + [c] + Join(parts[1..], c)
  }

  /** No piece produced by splitting contains the separator. */
  lemma {:induction false} SplitPiecesLackSeparator(s: string, c: char)
    ensures forall i :: 0 <= i < |Split(s, c)| ==> c !in Split(s, c)[i]
    decreases |s|
  {
    if |s| > 0 {
      SplitPiecesLackSeparator(s[1..], c);
    }
  }

  /** Joining the pieces of a split gives the original string back. */
  lemma {:induction false} JoinSplit(s: string, c: char)
    ensures Join(Split(s, c), c) == s
    decreases |s|
  {
    if |s| > 0 {
      var rest := Split(s[1..], c);
      JoinSplit(s[1..], c);
      if s[0] == c {
        assert Split(s, c) == [""] + rest;
        assert Join(Split(s, c), c) == "" + [c] + Join(rest, c);
        assert s == [s[0]] + s[1..];
      } else if |rest| == 1 {
        assert s == [s[0]] + s[1..];
      } else {
        var parts := [[s[0]] + rest[0]] + rest[1..];
        assert parts[1..] == rest[1..];
        assert Join(rest, c) == rest[0] + [c] + Join(rest[1..], c);
        assert s == [s[0]] + s[1..];
      }
    }
  }

  /** Splitting at the first separator: the first piece is everything before it. */
  lemma {:induction false} SplitAtFirst(a: string, c: char, b: string)
    requires c !in a
    ensures Split(a + [c] + b, c) == [a] + Split(b, c)
    decreases |a|
  {
    if |a| == 0 {
      assert a + [c] + b == [c] + b;
      assert ([c] + b)[1..] == b;
    } else {
      assert (a + [c] + b)[1..] == a[1..] + [c] + b;
      SplitAtFirst(a[1..], c, b);
      assert [a[0]] + a[1..] == a;
    }
  }

  /** A string without the separator splits into itself alone. */
  lemma {:induction false} SplitWithoutSeparator(s: string, c: char)
    requires c !in s
    ensures Split(s, c) == [s]
    decreases |s|
  {
    if |s| > 0 {
      SplitWithoutSeparator(s[1..], c);
      assert [s[0]] + s[1..] == s;
    }
  }

  /** Splitting a join recovers the pieces when no piece holds the separator. */
  lemma {:induction false} SplitJoin(parts: seq<string>, c: char)
    requires |parts| >= 1
    requires forall i :: 0 <= i < |parts| ==> c !in parts[i]
    ensures Split(Join(parts, c), c) == parts
    decreases |parts|
  {
    if |parts| == 1 {
      SplitWithoutSeparator(parts[0], c);
    } else {
      SplitJoin(parts[1..], c);
      SplitAtFirst(parts[0], c, Join(parts[1..], c));
      assert [parts[0]] + parts[1..] == parts;
    }
  }

  /** The pieces of a split are one more than the separators. */
  lemma {:induction false} SplitLength(s: string, c: char)
    ensures |Split(s, c)| == Count(s, c) + 1
    decreases |s|
  {
    if |s| > 0 {
      SplitLength(s[1..], c);
    }
  }

  /** The white space and line terminators that `String.prototype.trim` removes. */
  predicate IsJsSpace(ch: char)
  {
    ch == '\t' || ch == '\n' || ch == '\U{B}' || ch == '\U{C}' || ch == '\r' || ch == ' '
    || ch == '\U{A0}' || ch == '\U{1680}' || ('\U{2000}' <= ch <= '\U{200A}')
    || ch == '\U{2028}' || ch == '\U{2029}' || ch == '\U{202F}' || ch == '\U{205F}'
    || ch == '\U{3000}' || ch == '\U{FEFF}'
  }

  predicate AllSpace(s: string)
  {
    forall i :: 0 <= i < |s| ==> IsJsSpace(s[i])
  }

  function TrimStart(s: string): (r: string)
    ensures |r| <= |s| && r == s[|s| - |r|..] && AllSpace(s[..|s| - |r|])
    ensures |r| == 0 || !IsJsSpace(r[0])
  {
    if |s| > 0 && IsJsSpace(s[0]) then
      var r := TrimStart(s[1..]);
      SpaceThenSuffix(s, r);
      r
    else s
  }

  /** A suffix of `s[1..]` after white space is a suffix of `s` after white space when `s` opens with a space. */
  lemma SpaceThenSuffix(s: string, r: string)
    requires |s| > 0 && IsJsSpace(s[0])
    requires |r| <= |s| - 1 && r == s[1..][|s| - 1 - |r|..] && AllSpace(s[1..][..|s| - 1 - |r|])
    ensures r == s[|s| - |r|..] && AllSpace(s[..|s| - |r|])
  {
    assert s[1..][|s| - 1 - |r|..] == s[|s| - |r|..];
    assert s[..|s| - |r|] == [s[0]] + s[1..][..|s| - 1 - |r|];
    SpacesJoin([s[0]], s[1..][..|s| - 1 - |r|]);
  }

  function TrimEnd(s: string): (r: string)
    ensures |r| <= |s| && r == s[..|r|] && AllSpace(s[|r|..])
    ensures |r| == 0 || !IsJsSpace(r[|r| - 1])
  {
    if |s| > 0 && IsJsSpace(s[|s| - 1]) then
      var r := TrimEnd(s[..|s| - 1]);
      assert s[|r|..] == s[..|s| - 1][|r|..] + [s[|s| - 1]];
      SpacesJoin(s[..|s| - 1][|r|..], [s[|s| - 1]]);
      r
    else s
  }

  /**
   * `String.prototype.trim`: the result sits inside `s` between two runs of white
   * space and neither starts nor ends with white space.
   */
  function Trim(s: string): (r: string)
    ensures |r| == 0 || (!IsJsSpace(r[0]) && !IsJsSpace(r[|r| - 1]))
    ensures exists i :: 0 <= i <= |s| - |r| && s[i..][..|r|] == r && AllSpace(s[..i]) && AllSpace(s[i + |r|..])
  {
    var t := TrimStart(s);
    var r := TrimEnd(t);
    TrimBetween(s, t, r, |s| - |t|);
    r
  }

  /** Two runs of white space make one. */
  lemma SpacesJoin(a: string, b: string)
    requires AllSpace(a) && AllSpace(b)
    ensures AllSpace(a + b)
  {
  }

  /** Trimming the start and then the end leaves a slice of `s` between two runs of white space. */
  lemma TrimBetween(s: string, t: string, r: string, i: int)
    requires |t| <= |s| && t == s[|s| - |t|..] && AllSpace(s[..|s| - |t|])
    requires |r| <= |t| && r == t[..|r|] && AllSpace(t[|r|..])
    requires i == |s| - |t|
    ensures 0 <= i <= |s| - |r| && s[i..][..|r|] == r && AllSpace(s[..i]) && AllSpace(s[i + |r|..])
  {
    assert s[i + |r|..] == t[|r|..];
  }

  /**
   * The replacement text of `String.prototype.replace` for one match of a pattern
   * without capture groups (GetSubstitution of ECMA-262): `$$` is a dollar, `$&`
   * the match, `` $` `` the text before it, `$'` the text after it; any other `$`
   * is kept as it is.
   */
  function Expand(rep: string, matched: string, before: string, after: string): string
    decreases |rep|
  {
    if |rep| == 0 then ""
    else if rep[0] == '$' && |rep| >= 2 && rep[1] == '$' then "$" + Expand(rep[2..], matched, before, after)
    else if rep[0] == '$' && |rep| >= 2 && rep[1] == '&' then matched + Expand(rep[2..], matched, before, after)
    else if rep[0] == '$' && |rep| >= 2 && rep[1] == '`' then before + Expand(rep[2..], matched, before, after)
    else if rep[0] == '$' && |rep| >= 2 && rep[1] == '\'' then after + Expand(rep[2..], matched, before, after)
    else [rep[0]] + Expand(rep[1..], matched, before, after)
  }

  /** A replacement without `$` is inserted literally. */
  lemma {:induction false} ExpandLiteral(rep: string, matched: string, before: string, after: string)
    requires '$' !in rep
    ensures Expand(rep, matched, before, after) == rep
    decreases |rep|
  {
    if |rep| > 0 {
      ExpandLiteral(rep[1..], matched, before, after);
      assert [rep[0]] + rep[1..] == rep;
    }
  }

  /** `s.replace(pat, rep)` with a string pattern: only the first occurrence is replaced. */
  function ReplaceFirst(s: string, pat: string, rep: string): string
  {
    match IndexOf(s, pat)
    case None => s
    case Some(i) => s[..i] + Expand(rep, pat, s[..i], s[i + |pat|..]) + s[i + |pat|..]
  }

  /** `ReplaceFirst` with a literal replacement splices it in at the first occurrence. */
  lemma ReplaceFirstLiteral(s: string, pat: string, rep: string)
    requires '$' !in rep
    ensures IndexOf(s, pat).None? ==> ReplaceFirst(s, pat, rep) == s
    ensures IndexOf(s, pat).Some? ==>
      var i := IndexOf(s, pat).value;
      ReplaceFirst(s, pat, rep) == s[..i] + rep + s[i + |pat|..]
  {
    if IndexOf(s, pat).Some? {
      var i := IndexOf(s, pat).value;
      ExpandLiteral(rep, pat, s[..i], s[i + |pat|..]);
    }
  }

  /**
   * `s.replace(/pat/g, rep)` for a literal, non-empty pattern: occurrences are
   * found left to right from index `i`, and the scan resumes after each one.
   */
  function ReplaceAllFrom(s: string, pat: string, rep: string, i: nat): string
    requires |pat| > 0 && i <= |s|
    decreases |s| - i
  {
    if i == |s| then ""
    else if OccursAt(s, pat, i) then
      Expand(rep, pat, s[..i], s[i + |pat|..]) + ReplaceAllFrom(s, pat, rep, i + |pat|)
    else [s[i]] + ReplaceAllFrom(s, pat, rep, i + 1)
  }

  function ReplaceAll(s: string, pat: string, rep: string): string
    requires |pat| > 0
  {
    ReplaceAllFrom(s, pat, rep, 0)
  }

  /** The same scan with a literal replacement, written over suffixes. */
  function ReplaceLiteral(s: string, pat: string, rep: string): string
    requires |pat| > 0
    decreases |s|
  {
    if |s| == 0 then ""
    else if StartsWith(s, pat) then rep + ReplaceLiteral(s[|pat|..], pat, rep)
    else [s[0]] + ReplaceLiteral(s[1..], pat, rep)
  }

  lemma {:induction false} ReplaceAllFromIsLiteral(s: string, pat: string, rep: string, i: nat)
    requires |pat| > 0 && i <= |s| && '$' !in rep
    ensures ReplaceAllFrom(s, pat, rep, i) == ReplaceLiteral(s[i..], pat, rep)
    decreases |s| - i
  {
    if i < |s| {
      if OccursAt(s, pat, i) {
        assert StartsWith(s[i..], pat);
        ExpandLiteral(rep, pat, s[..i], s[i + |pat|..]);
        ReplaceAllFromIsLiteral(s, pat, rep, i + |pat|);
        assert s[i..][|pat|..] == s[i + |pat|..];
      } else {
        assert !StartsWith(s[i..], pat);
        ReplaceAllFromIsLiteral(s, pat, rep, i + 1);
        assert s[i..][1..] == s[i + 1..];
      }
    }
  }

  /** With a replacement free of `$`, the global replace is the literal one. */
  lemma ReplaceAllIsLiteral(s: string, pat: string, rep: string)
    requires |pat| > 0 && '$' !in rep
    ensures ReplaceAll(s, pat, rep) == ReplaceLiteral(s, pat, rep)
  {
    ReplaceAllFromIsLiteral(s, pat, rep, 0);
    assert s[0..] == s;
  }

  /** A global replace changes nothing in a string where the pattern does not occur. */
  lemma {:induction false} ReplaceAllAbsent(s: string, pat: string, rep: string, i: nat)
    requires |pat| > 0 && i <= |s| && !Occurs(s, pat)
    ensures ReplaceAllFrom(s, pat, rep, i) == s[i..]
    decreases |s| - i
  {
    if i < |s| {
      assert !OccursAt(s, pat, i);
      ReplaceAllAbsent(s, pat, rep, i + 1);
      assert s[i..] == [s[i]] + s[i + 1..];
    }
  }

  /** A pattern holding a character that `s` lacks does not occur in `s`. */
  lemma MissingCharNoOccurrence(s: string, q: string, c: char)
    requires c in q && c !in s
    ensures !Occurs(s, q)
  {
    var j :| 0 <= j < |q| && q[j] == c;
    forall k | 0 <= k <= |s|
      ensures !OccursAt(s, q, k)
    {
      if k + |q| <= |s| {
        assert s[k..k + |q|][j] == s[k + j];
        assert s[k + j] in s;
      }
    }
  }

  /** Text that does not occur in `s` does not occur in any suffix of it. */
  lemma NoOccurrenceInSuffix(s: string, q: string, d: nat)
    requires d <= |s| && !Occurs(s, q)
    ensures !Occurs(s[d..], q)
  {
    forall k | 0 <= k <= |s| - d
      ensures !OccursAt(s[d..], q, k)
    {
      if k + |q| <= |s| - d {
        assert s[d..][k..k + |q|] == s[k + d..k + d + |q|];
        assert !OccursAt(s, q, k + d);
      }
    }
  }

  /** Prefixing text that shares no character with `q` cannot make `q` occur. */
  lemma PrefixAvoids(x: string, y: string, q: string)
    requires |q| > 0 && NoCommonChar(x, q) && !Occurs(y, q)
    ensures !Occurs(x + y, q)
  {
    var out := x + y;
    forall k | 0 <= k <= |out|
      ensures !OccursAt(out, q, k)
    {
      if k + |q| <= |out| {
        if k < |x| {
          assert out[k..k + |q|][0] == x[k];
          assert x[k] in x;
        } else {
          assert out[k..k + |q|] == y[k - |x|..k - |x| + |q|];
          assert !OccursAt(y, q, k - |x|);
        }
      }
    }
  }

  /** Prefixing one character makes `q` occur only at the very start. */
  lemma ConsAvoids(ch: char, y: string, q: string)
    requires !Occurs(y, q) && !StartsWith([ch] + y, q)
    ensures !Occurs([ch] + y, q)
  {
    var out := [ch] + y;
    forall k | 0 <= k <= |out|
      ensures !OccursAt(out, q, k)
    {
      if k >= 1 && k + |q| <= |out| {
        assert out[k..k + |q|] == y[k - 1..k - 1 + |q|];
        assert !OccursAt(y, q, k - 1);
      } else if k == 0 {
        assert !StartsWith(out, q);
      }
    }
  }

  /**
   * If the literal replace leaves text that starts with `w`, and `w` shares no
   * character with a non-empty replacement, the original text started with `w` too.
   */
  lemma {:induction false} LiteralPrefix(t: string, pat: string, rep: string, w: string)
    requires |pat| > 0 && |rep| > 0 && NoCommonChar(rep, w)
    requires StartsWith(ReplaceLiteral(t, pat, rep), w)
    ensures StartsWith(t, w)
    decreases |w|
  {
    if |w| > 0 {
      var out := ReplaceLiteral(t, pat, rep);
      assert |t| > 0;
      assert StartsWith(t, pat) ==> StartsWith(out, rep);
      assert rep[0] in rep;
      assert out[0] == w[0] && w[0] in w;
      assert out[0] !in rep;
      assert !StartsWith(out, rep);
      assert !StartsWith(t, pat);
      var tail := ReplaceLiteral(t[1..], pat, rep);
      assert out == [t[0]] + tail;
      assert StartsWith(tail, w[1..]);
      assert NoCommonChar(rep, w[1..]) by {
        forall c | c in rep ensures c !in w[1..] {
          assert c !in w;
        }
      }
      LiteralPrefix(t[1..], pat, rep, w[1..]);
      assert t[..|w|] == [t[0]] + t[1..][..|w| - 1];
    }
  }

  /** A one-character step of the literal replace keeps a prefix that shares nothing with `rep`. */
  lemma ConsPrefix(s: string, pat: string, rep: string, q: string)
    requires |pat| > 0 && |rep| > 0 && |q| > 0 && |s| > 0 && NoCommonChar(rep, q)
    ensures StartsWith([s[0]] + ReplaceLiteral(s[1..], pat, rep), q) ==> StartsWith(s, q)
  {
    var tail := ReplaceLiteral(s[1..], pat, rep);
    var out := [s[0]] + tail;
    if StartsWith(out, q) {
      assert out[..|q|] == q;
      assert out[..|q|][1..] == tail[..|q| - 1];
      assert StartsWith(tail, q[1..]);
      assert NoCommonChar(rep, q[1..]) by {
        forall c | c in rep ensures c !in q[1..] {
          assert c !in q;
        }
      }
      LiteralPrefix(s[1..], pat, rep, q[1..]);
      assert q[0] == out[0] == s[0];
      assert q == [q[0]] + q[1..];
      assert s[..|q|] == [s[0]] + s[1..][..|q| - 1];
    }
  }

  /**
   * After a global literal replace with a non-empty replacement that shares no
   * character with `q`, `q` does not occur in the result: neither the replaced
   * pattern itself (`q == pat`) nor any text `q` that did not occur before.
   */
  lemma {:induction false} ReplaceLiteralAvoids(s: string, pat: string, rep: string, q: string)
    requires |pat| > 0 && |rep| > 0 && |q| > 0 && NoCommonChar(rep, q)
    requires q == pat || !Occurs(s, q)
    ensures !Occurs(ReplaceLiteral(s, pat, rep), q)
    decreases |s|
  {
    if |s| == 0 {
      assert ReplaceLiteral(s, pat, rep) == "";
    } else if StartsWith(s, pat) {
      if q != pat {
        NoOccurrenceInSuffix(s, q, |pat|);
      }
      ReplaceLiteralAvoids(s[|pat|..], pat, rep, q);
      PrefixAvoids(rep, ReplaceLiteral(s[|pat|..], pat, rep), q);
    } else {
      var tail := ReplaceLiteral(s[1..], pat, rep);
      if q != pat {
        NoOccurrenceInSuffix(s, q, 1);
      }
      ReplaceLiteralAvoids(s[1..], pat, rep, q);
      ConsPrefix(s, pat, rep, q);
      assert !OccursAt(s, q, 0);
      ConsAvoids(s[0], tail, q);
    }
  }

  /**
   * The global replace of a `$`-free, non-empty `rep` that shares no character
   * with `pat` leaves no occurrence of `pat`, and creates no occurrence of any `q`
   * that shares no character with `rep`.
   */
  lemma ReplaceAllAvoids(s: string, pat: string, rep: string, q: string)
    requires |pat| > 0 && |rep| > 0 && |q| > 0 && '$' !in rep && NoCommonChar(rep, q)
    requires q == pat || !Occurs(s, q)
    ensures !Occurs(ReplaceAll(s, pat, rep), q)
  {
    ReplaceAllIsLiteral(s, pat, rep);
    ReplaceLiteralAvoids(s, pat, rep, q);
  }

  /** A literal replace with a `$`-free, long enough `rep` holding neither end character of `pat` leaves no `pat`. */
  lemma ReplaceAllRemoves(s: string, pat: string, rep: string)
    requires |pat| > 0 && |rep| + 1 >= |pat| && '$' !in rep
    requires pat[0] !in rep && pat[|pat| - 1] !in rep
    ensures !Occurs(ReplaceAll(s, pat, rep), pat)
  {
    ReplaceAllIsLiteral(s, pat, rep);
    ReplaceLiteralRemoves(s, pat, rep);
  }

  /**
   * Text that the literal replace turns into one starting with `w` started with
   * `w` already, when `w` is no longer than `rep` and its last character is not
   * in `rep`: a replacement starting inside the first `|w|` characters would
   * have to supply that last character.
   */
  lemma {:induction false} LiteralPrefixEnd(t: string, pat: string, rep: string, w: string)
    requires |pat| > 0 && |w| <= |rep| && (|w| > 0 ==> w[|w| - 1] !in rep)
    requires StartsWith(ReplaceLiteral(t, pat, rep), w)
    ensures StartsWith(t, w)
    decreases |w|
  {
    if |w| > 0 {
      var out := ReplaceLiteral(t, pat, rep);
      assert |t| > 0;
      assert rep[|w| - 1] in rep;
      var tail := ReplaceLiteral(t[1..], pat, rep);
      assert out == [t[0]] + tail;
      assert StartsWith(tail, w[1..]) by {
        assert out[..|w|][1..] == tail[..|w| - 1];
      }
      LiteralPrefixEnd(t[1..], pat, rep, w[1..]);
      assert w == [w[0]] + w[1..];
      assert t[..|w|] == [t[0]] + t[1..][..|w| - 1];
    }
  }

  /** A one-character step of the literal replace starts with `pat` only if the text did. */
  lemma ConsPrefixEnd(s: string, pat: string, rep: string)
    requires |pat| > 0 && |s| > 0 && |rep| + 1 >= |pat| && pat[|pat| - 1] !in rep
    ensures StartsWith([s[0]] + ReplaceLiteral(s[1..], pat, rep), pat) ==> StartsWith(s, pat)
  {
    var tail := ReplaceLiteral(s[1..], pat, rep);
    if StartsWith([s[0]] + tail, pat) {
      assert ([s[0]] + tail)[..|pat|][1..] == tail[..|pat| - 1];
      LiteralPrefixEnd(s[1..], pat, rep, pat[1..]);
      assert pat == [pat[0]] + pat[1..];
      assert s[..|pat|] == [s[0]] + s[1..][..|pat| - 1];
    }
  }

  /** Prefixing text that lacks the first character of `q` cannot make `q` occur. */
  lemma HeadlessPrefixAvoids(x: string, y: string, q: string)
    requires |q| > 0 && q[0] !in x && !Occurs(y, q)
    ensures !Occurs(x + y, q)
  {
    var out := x + y;
    forall k | 0 <= k <= |out|
      ensures !OccursAt(out, q, k)
    {
      if k + |q| <= |out| {
        if k < |x| {
          assert out[k..k + |q|][0] == x[k];
        } else {
          assert out[k..k + |q|] == y[k - |x|..k - |x| + |q|];
          assert !OccursAt(y, q, k - |x|);
        }
      }
    }
  }

  /** The literal replace by text holding neither end character of `pat` leaves no `pat` behind. */
  lemma {:induction false} ReplaceLiteralRemoves(s: string, pat: string, rep: string)
    requires |pat| > 0 && |rep| + 1 >= |pat|
    requires pat[0] !in rep && pat[|pat| - 1] !in rep
    ensures !Occurs(ReplaceLiteral(s, pat, rep), pat)
    decreases |s|
  {
    if |s| == 0 {
      assert ReplaceLiteral(s, pat, rep) == "";
    } else if StartsWith(s, pat) {
      ReplaceLiteralRemoves(s[|pat|..], pat, rep);
      HeadlessPrefixAvoids(rep, ReplaceLiteral(s[|pat|..], pat, rep), pat);
    } else {
      ReplaceLiteralRemoves(s[1..], pat, rep);
      ConsPrefixEnd(s, pat, rep);
      ConsAvoids(s[0], ReplaceLiteral(s[1..], pat, rep), pat);
    }
  }

  // ------------------------------------------------- occurrences that survive

  /** No occurrence of `pat` in `s` straddles the cut at `c`. */
  predicate NoCrossing(s: string, pat: string, c: int)
  {
    forall j | 0 <= j < c < j + |pat| :: !OccursAt(s, pat, j)
  }

  /** No proper suffix of `p` is a prefix of `q`: an occurrence of `p` cannot run into one of `q`. */
  predicate NoOverlap(p: string, q: string)
  {
    forall d | 0 < d < |p| :: !StartsWith(q, p[d..])
  }

  /** Two non-empty texts whose occurrences can neither overlap nor nest. */
  predicate Apart(p: string, q: string)
  {
    |p| > 0 && |q| > 0 && NoOverlap(p, q) && NoOverlap(q, p) && !Occurs(p, q) && !Occurs(q, p)
  }

  /** A piece of an occurrence of `q` in `s` is the matching piece of `s`. */
  lemma SliceWithin(s: string, q: string, k: nat, a: nat, b: nat)
    requires OccursAt(s, q, k) && a <= b <= |q|
    ensures q[a..b] == s[k + a..k + b]
  {
    forall t | a <= t < b
      ensures q[t] == s[k + t]
    {
      assert q[t] == s[k..k + |q|][t];
    }
  }

  /**
   * How an occurrence of `p` at `i` meets one of `q` at `k`: inside it, running
   * into it, around it, or running out of it.
   */
  lemma Meeting(s: string, q: string, k: nat, p: string, i: nat)
    requires OccursAt(s, q, k)
    ensures OccursAt(s, p, i) && k <= i && i + |p| <= k + |q| ==> OccursAt(q, p, i - k)
    ensures OccursAt(s, p, i) && i < k < i + |p| <= k + |q| ==> StartsWith(q, p[k - i..])
    ensures OccursAt(s, p, i) && i <= k && k + |q| <= i + |p| ==> OccursAt(p, q, k - i)
    ensures OccursAt(s, p, i) && k < i < k + |q| < i + |p| ==> StartsWith(p, q[i - k..])
  {
    if OccursAt(s, p, i) && k <= i && i + |p| <= k + |q| {
      SliceWithin(s, q, k, i - k, i - k + |p|);
    }
    if OccursAt(s, p, i) && i < k < i + |p| <= k + |q| {
      assert p[k - i..] == s[k..i + |p|] == q[..i + |p| - k];
    }
    if OccursAt(s, p, i) && i <= k && k + |q| <= i + |p| {
      SliceWithin(s, p, i, k - i, k - i + |q|);
    }
    if OccursAt(s, p, i) && k < i < k + |q| < i + |p| {
      assert q[i - k..] == s[i..k + |q|] == p[..k + |q| - i];
    }
  }

  /**
   * Occurrences of `pat` never straddle either end of an occurrence of `q`
   * when neither runs into the other and `q` cannot sit strictly inside `pat`.
   */
  lemma ClearCuts(s: string, pat: string, q: string, k: nat)
    requires |pat| > 0 && OccursAt(s, q, k)
    requires NoOverlap(pat, q) && NoOverlap(q, pat) && (|pat| <= |q| || !Occurs(pat, q))
    ensures NoCrossing(s, pat, k) && NoCrossing(s, pat, k + |q|)
  {
    forall j | 0 <= j < k < j + |pat|
      ensures !OccursAt(s, pat, j)
    {
      Meeting(s, q, k, pat, j);
    }
    forall j | 0 <= j < k + |q| < j + |pat|
      ensures !OccursAt(s, pat, j)
    {
      Meeting(s, q, k, pat, j);
    }
  }

  /** Dropping `d` characters from the front keeps a cut clear. */
  lemma ShiftNoCrossing(x: string, y: string, pat: string, d: nat)
    requires d <= |x| && NoCrossing(x + y, pat, |x|)
    ensures NoCrossing(x[d..] + y, pat, |x| - d)
  {
    assert x[d..] + y == (x + y)[d..];
    forall j | 0 <= j < |x| - d < j + |pat|
      ensures !OccursAt(x[d..] + y, pat, j)
    {
      if j + |pat| <= |x| - d + |y| {
        assert (x[d..] + y)[j..j + |pat|] == (x + y)[j + d..j + d + |pat|];
      }
      assert !OccursAt(x + y, pat, j + d);
    }
  }

  /** The literal replace can be cut at any place that no occurrence of the pattern straddles. */
  lemma {:induction false} ReplaceLiteralSplit(x: string, y: string, pat: string, rep: string)
    requires |pat| > 0 && NoCrossing(x + y, pat, |x|)
    ensures ReplaceLiteral(x + y, pat, rep) == ReplaceLiteral(x, pat, rep) + ReplaceLiteral(y, pat, rep)
    decreases |x|
  {
    var s := x + y;
    if |x| == 0 {
      assert s == y;
    } else {
      assert |pat| <= |x| ==> s[..|pat|] == x[..|pat|];
      assert !OccursAt(s, pat, 0) || |pat| <= |x|;
      if StartsWith(s, pat) {
        assert s[|pat|..] == x[|pat|..] + y;
        ShiftNoCrossing(x, y, pat, |pat|);
        ReplaceLiteralSplit(x[|pat|..], y, pat, rep);
      } else {
        assert s[1..] == x[1..] + y;
        ShiftNoCrossing(x, y, pat, 1);
        ReplaceLiteralSplit(x[1..], y, pat, rep);
      }
    }
  }

  /** A literal global replace acts separately before, on and after an occurrence of `q` that is clear of the pattern. */
  lemma ReplaceAllAround(s: string, pat: string, rep: string, q: string, k: nat)
    requires |pat| > 0 && '$' !in rep && OccursAt(s, q, k)
    requires NoOverlap(pat, q) && NoOverlap(q, pat) && (|pat| <= |q| || !Occurs(pat, q))
    ensures ReplaceAll(s, pat, rep)
         == ReplaceAll(s[..k], pat, rep) + ReplaceAll(q, pat, rep) + ReplaceAll(s[k + |q|..], pat, rep)
  {
    ClearCuts(s, pat, q, k);
    var a, b := s[..k], s[k + |q|..];
    assert s == a + (q + b);
    assert s[..k + |q|] + b == s;
    ReplaceLiteralSplit(a, q + b, pat, rep);
    ShiftNoCrossing(s[..k + |q|], b, pat, k);
    assert s[..k + |q|][k..] == q;
    ReplaceLiteralSplit(q, b, pat, rep);
    ReplaceAllIsLiteral(s, pat, rep);
    ReplaceAllIsLiteral(a, pat, rep);
    ReplaceAllIsLiteral(q, pat, rep);
    ReplaceAllIsLiteral(b, pat, rep);
  }

  /** A global replace keeps every occurrence of a text `q` that is apart from the pattern. */
  lemma ReplaceAllKeeps(s: string, pat: string, rep: string, q: string, k: nat)
    requires '$' !in rep && OccursAt(s, q, k) && Apart(pat, q)
    ensures OccursAt(ReplaceAll(s, pat, rep), q, |ReplaceAll(s[..k], pat, rep)|)
  {
    ReplaceAllAround(s, pat, rep, q, k);
    ReplaceAllAbsent(q, pat, rep, 0);
    assert q[0..] == q;
  }

  /** A global replace writes its replacement where an occurrence of a pattern that cannot overlap itself stood. */
  lemma ReplaceAllPlaces(s: string, pat: string, rep: string, k: nat)
    requires |pat| > 0 && '$' !in rep && OccursAt(s, pat, k) && NoOverlap(pat, pat)
    ensures OccursAt(ReplaceAll(s, pat, rep), rep, |ReplaceAll(s[..k], pat, rep)|)
  {
    ReplaceAllAround(s, pat, rep, pat, k);
    assert ReplaceAll(pat, pat, rep) == rep by {
      ReplaceAllIsLiteral(pat, pat, rep);
      assert StartsWith(pat, pat);
      assert pat[|pat|..] == "";
    }
  }

  /** Replacing the first occurrence of a pattern keeps every occurrence of a text `q` apart from it. */
  lemma ReplaceFirstKeeps(s: string, pat: string, rep: string, q: string, k: nat)
    requires OccursAt(s, q, k) && Apart(pat, q)
    ensures Occurs(ReplaceFirst(s, pat, rep), q)
  {
    match IndexOf(s, pat)
    case None =>
      assert OccursAt(ReplaceFirst(s, pat, rep), q, k);
    case Some(i) =>
      ClearCuts(s, pat, q, k);
      Meeting(s, q, k, pat, i);
      assert OccursAt(s, pat, i);
      assert i + |pat| <= k || k + |q| <= i;
      var e := Expand(rep, pat, s[..i], s[i + |pat|..]);
      var out := s[..i] + e + s[i + |pat|..];
      if k + |q| <= i {
        assert out[k..k + |q|] == s[k..k + |q|];
        assert OccursAt(out, q, k);
      } else {
        var k' := k - |pat| + |e|;
        assert out[k'..k' + |q|] == s[k..k + |q|];
        assert OccursAt(out, q, k');
      }
  }
}

/**
 * `injectI18n` of internal/scripts/build.mjs: every `{{i18n.KEY}}` token, KEY a
 * non-empty run of word characters and dots, is replaced in one left-to-right
 * pass by the translation of KEY; the inserted text is not scanned again.
 */
module I18n {
  import opened Options
  import opened Text
  import opened Locales

  /** The characters of `[\w\.]`: ASCII letters, digits, underscore and dot. */
  predicate WordOrDot(c: char)
  {
    ('a' <= c <= 'z') || ('A' <= c <= 'Z') || ('0' <= c <= '9') || c == '_' || c == '.'
  }

  const Open: string := "{{i18n."
  const Close: string := "}}"

  /** The token text for a key. */
  function Token(key: string): string
  {
    Open + key + Close
  }

  /** A valid key: what `([\w\.]+)` captures. */
  predicate IsKey(key: string)
  {
    |key| > 0 && forall j | 0 <= j < |key| :: WordOrDot(key[j])
  }

  /** `s` begins with a token whose key has length `n`. */
  predicate TokenAt(s: string, n: nat)
  {
    |Open| + n + |Close| <= |s| && StartsWith(s, Open) && IsKey(s[|Open|..|Open| + n])
      && s[|Open| + n..|Open| + n + |Close|] == Close
  }

  /** Length of the longest run of word characters and dots at the start of `s`. */
  function KeyRun(s: string): (r: nat)
    ensures r <= |s|
    ensures forall j | 0 <= j < r :: WordOrDot(s[j])
    ensures r == |s| || !WordOrDot(s[r])
  {
    if |s| == 0 || !WordOrDot(s[0]) then 0 else 1 + KeyRun(s[1..])
  }

  /**
   * The regular expression tried at the start of `s`: the greedy run must be
   * followed by the closing braces. Yields the key's length.
   */
  function MatchAt(s: string): (r: Option<nat>)
    ensures r.Some? ==> TokenAt(s, r.value)
    ensures r.Some? ==> forall n :: TokenAt(s, n) ==> n == r.value
    ensures r.None? ==> forall n :: !TokenAt(s, n)
  {
    if !StartsWith(s, Open) then None
    else
      var n := KeyRun(s[|Open|..]);
      if n > 0 && |Open| + n + |Close| <= |s| && s[|Open| + n..|Open| + n + |Close|] == Close then
        assert s[|Open|..][..n] == s[|Open|..|Open| + n];
        assert forall m :: TokenAt(s, m) ==> m == n by {
          forall m | TokenAt(s, m) ensures m == n {
            TokenKeyIsRun(s, m, n);
          }
        }
        Some(n)
      else
        assert forall m :: !TokenAt(s, m) by {
          forall m ensures !TokenAt(s, m) {
            if TokenAt(s, m) {
              TokenKeyIsRun(s, m, n);
            }
          }
        }
        None
  }

  /** A token's key is exactly the greedy run, because `}` is no word character. */
  lemma TokenKeyIsRun(s: string, m: nat, n: nat)
    requires StartsWith(s, Open) && n == KeyRun(s[|Open|..])
    requires TokenAt(s, m)
    ensures m == n
  {
    var t := s[|Open|..];
    var key := s[|Open|..|Open| + m];
    forall j | 0 <= j < m
      ensures WordOrDot(t[j])
    {
      assert t[j] == key[j];
    }
    var close := s[|Open| + m..|Open| + m + |Close|];
    assert close == Close;
    assert t[m] == close[0] == '}';
    assert !WordOrDot(t[m]);
  }

  /** `content.replace(/{{i18n\.([\w\.]+)}}/g, (_, key) => t(key, locale))`. */
  function Inject(s: string, table: map<string, Value>): string
  {
    if |s| == 0 then []
    else
      match MatchAt(s)
      case Some(n) => Translation(table, s[|Open|..|Open| + n]) + Inject(s[|Open| + n + |Close|..], table)
      case None => [s[0]] + Inject(s[1..], table)
  }

  /** Text without an opening brace passes through unchanged. */
  lemma {:induction false} InjectPlain(s: string, table: map<string, Value>)
    requires '{' !in s
    ensures Inject(s, table) == s
  {
    if |s| > 0 {
      assert s == [s[0]] + s[1..];
      KeptChar(s, table);
      InjectPlain(s[1..], table);
    }
  }

  /** A prefix without an opening brace is copied, and the scan resumes after it. */
  lemma {:induction false} InjectPlainPrefix(a: string, b: string, table: map<string, Value>)
    requires '{' !in a
    ensures Inject(a + b, table) == a + Inject(b, table)
  {
    if |a| > 0 {
      assert a == [a[0]] + a[1..];
      assert (a + b)[0] == a[0];
      assert (a + b)[1..] == a[1..] + b;
      KeptChar(a + b, table);
      InjectPlainPrefix(a[1..], b, table);
    } else {
      assert a + b == b;
    }
  }

  /**
   * Literal text: no token opening starts inside it, and it does not end with
   * the beginning of one, so whatever follows it cannot complete an opening.
   */
  predicate Literal(text: string)
  {
    (forall j | 0 <= j < |text| :: !StartsWith(text[j..], Open))
    && forall m | 0 < m < |Open| :: !EndsWith(text, Open[..m])
  }

  /** Dropping the first character of literal text leaves literal text. */
  lemma LiteralTail(a: string)
    requires |a| > 0 && Literal(a)
    ensures Literal(a[1..])
  {
    forall j | 0 <= j < |a| - 1
      ensures !StartsWith(a[1..][j..], Open)
    {
      assert a[1..][j..] == a[j + 1..];
    }
    forall m | 0 < m < |Open|
      ensures !EndsWith(a[1..], Open[..m])
    {
      if m <= |a| - 1 {
        assert a[1..][|a| - 1 - m..] == a[|a| - m..];
      }
    }
  }

  /** Text that starts with literal text does not start with a token opening. */
  lemma LiteralNotOpening(a: string, b: string)
    requires |a| > 0 && Literal(a)
    ensures !StartsWith(a + b, Open)
  {
    var s := a + b;
    if |a| >= |Open| {
      assert a[0..] == a;
      assert s[..|Open|] == a[0..][..|Open|];
    } else {
      var m := |a|;
      assert a[|a| - m..] == a;
      assert |Open| <= |s| ==> s[..|Open|][..m] == a;
    }
  }

  /** A literal prefix is copied, and the scan resumes after it. */
  lemma {:induction false} InjectLiteralPrefix(a: string, b: string, table: map<string, Value>)
    requires Literal(a)
    ensures Inject(a + b, table) == a + Inject(b, table)
    decreases |a|
  {
    if |a| > 0 {
      LiteralNotOpening(a, b);
      assert MatchAt(a + b).None?;
      CharThenRest(a, b, table);
      LiteralTail(a);
      InjectLiteralPrefix(a[1..], b, table);
      Regroup([a[0]], Inject(a[1..] + b, table), a[1..], Inject(b, table));
      assert [a[0]] + a[1..] == a;
    } else {
      assert a + b == b;
    }
  }

  /** Inside a token only its first two characters are braces that open; the third is the `i` of `i18n`. */
  lemma TokenInterior(s: string, n: nat)
    requires TokenAt(s, n)
    ensures s[2] == 'i'
    ensures forall p | 2 <= p < |Open| + n + |Close| :: s[p] != '{'
  {
    assert s[..|Open|] == Open;
    forall p | 2 <= p < |Open| + n + |Close|
      ensures s[p] != '{'
    {
      if p < |Open| {
        assert s[p] == Open[p];
      } else if p < |Open| + n {
        assert s[p] == s[|Open|..|Open| + n][p - |Open|];
      } else {
        assert s[p] == s[|Open| + n..|Open| + n + |Close|][p - |Open| - n];
      }
    }
  }

  /** A token of a text is a token of any longer text. */
  lemma TokenAtExtends(a: string, c: string, n: nat)
    ensures TokenAt(a, n) ==> TokenAt(a + c, n)
  {
    if TokenAt(a, n) {
      var s := a + c;
      var l := |Open| + n + |Close|;
      assert s[..l] == a[..l];
      assert s[..|Open|] == a[..|Open|];
      assert s[|Open|..|Open| + n] == a[|Open|..|Open| + n];
      assert s[|Open| + n..l] == a[|Open| + n..l];
    }
  }

  /** A token of `a + c` ends inside `a` when `c` starts with two braces that do not open a token. */
  lemma TokenBeforeCut(a: string, c: string, n: nat)
    requires |a| > 0 && |c| >= 2 && c[0] == '{' && c[1] != 'i'
    requires TokenAt(a + c, n)
    ensures |Open| + n + |Close| <= |a| && TokenAt(a, n)
  {
    var s := a + c;
    var l := |Open| + n + |Close|;
    TokenInterior(s, n);
    assert s[|a|] == '{';
    assert s[|a| + 1] == c[1];
    assert l <= |a|;
    assert a[..|Open|] == s[..|Open|];
    assert a[|Open|..|Open| + n] == s[|Open|..|Open| + n];
    assert a[|Open| + n..l] == s[|Open| + n..l];
  }

  /**
   * The scan can be cut just before two braces that do not open a token: no
   * token reaches across the cut, so each side is injected on its own.
   */
  lemma {:induction false} InjectSplit(a: string, c: string, table: map<string, Value>)
    requires |c| >= 2 && c[0] == '{' && c[1] != 'i'
    ensures Inject(a + c, table) == Inject(a, table) + Inject(c, table)
    decreases |a|
  {
    if |a| == 0 {
      assert a + c == c;
      assert Inject(a, table) == [];
    } else {
      var d, x := SplitStep(a, c, table);
      InjectSplit(a[d..], c, table);
      Regroup(x, Inject(a[d..] + c, table), Inject(a[d..], table), Inject(c, table));
    }
  }

  /** Re-association of the text emitted before and after one step. */
  lemma Regroup(x: string, rest: string, y: string, z: string)
    requires rest == y + z
    ensures x + rest == (x + y) + z
  {
  }

  /**
   * One step of the scan of `a + c` before the cut: the same text `x` is emitted
   * for the first `d` characters of `a` whether or not `c` follows.
   */
  lemma SplitStep(a: string, c: string, table: map<string, Value>) returns (d: nat, x: string)
    requires |a| > 0 && |c| >= 2 && c[0] == '{' && c[1] != 'i'
    ensures 0 < d <= |a|
    ensures Inject(a + c, table) == x + Inject(a[d..] + c, table)
    ensures Inject(a, table) == x + Inject(a[d..], table)
  {
    match MatchAt(a + c)
    case Some(n) =>
      TokenBeforeCut(a, c, n);
      TokenThenRest(a, c, n, table);
      InjectAtToken(a, n, table);
      d, x := |Open| + n + |Close|, Translation(table, a[|Open|..|Open| + n]);
    case None =>
      NoTokenInPrefix(a, c);
      CharThenRest(a, c, table);
      InjectAtChar(a, table);
      d, x := 1, [a[0]];
  }

  /** A token at the start of `a` is the token at the start of `a + c`. */
  lemma TokenThenRest(a: string, c: string, n: nat, table: map<string, Value>)
    requires TokenAt(a, n)
    ensures |Open| + n + |Close| <= |a|
    ensures Inject(a + c, table)
         == Translation(table, a[|Open|..|Open| + n]) + Inject(a[|Open| + n + |Close|..] + c, table)
  {
    var l := |Open| + n + |Close|;
    TokenAtExtends(a, c, n);
    InjectAtToken(a + c, n, table);
    assert (a + c)[|Open|..|Open| + n] == a[|Open|..|Open| + n];
    assert (a + c)[l..] == a[l..] + c;
  }

  /** A character copied from the start of `a` is the one copied from `a + c`. */
  lemma CharThenRest(a: string, c: string, table: map<string, Value>)
    requires |a| > 0 && MatchAt(a + c).None?
    ensures Inject(a + c, table) == [a[0]] + Inject(a[1..] + c, table)
  {
    InjectAtChar(a + c, table);
    assert (a + c)[1..] == a[1..] + c;
  }

  /** Where no token starts in a text, none starts in its non-empty prefix. */
  lemma NoTokenInPrefix(a: string, c: string)
    requires MatchAt(a + c).None?
    ensures MatchAt(a).None?
  {
    TokenAtExtends(a, c, if MatchAt(a).Some? then MatchAt(a).value else 0);
  }

  /** Where no token starts, the first character is copied and the scan moves on by one. */
  lemma InjectAtChar(s: string, table: map<string, Value>)
    requires |s| > 0 && MatchAt(s).None?
    ensures Inject(s, table) == [s[0]] + Inject(s[1..], table)
  {
  }

  /** Where a token starts, its translation is emitted and the scan resumes after it. */
  lemma InjectAtToken(s: string, n: nat, table: map<string, Value>)
    requires TokenAt(s, n)
    ensures |Open| + n + |Close| <= |s|
    ensures Inject(s, table)
         == Translation(table, s[|Open|..|Open| + n]) + Inject(s[|Open| + n + |Close|..], table)
  {
    assert MatchAt(s) == Some(n);
  }

  /** An occurrence of literal text opening with two braces survives the injection. */
  lemma InjectKeepsLiteral(s: string, w: string, k: nat, table: map<string, Value>)
    requires OccursAt(s, w, k) && |w| >= 2 && w[0] == '{' && w[1] != 'i' && Literal(w)
    ensures OccursAt(Inject(s, table), w, |Inject(s[..k], table)|)
  {
    var a := s[..k];
    var rest := s[k + |w|..];
    assert s == a + (w + rest) by {
      assert s == s[..k] + s[k..k + |w|] + s[k + |w|..];
    }
    InjectSplit(a, w + rest, table);
    InjectLiteralPrefix(w, rest, table);
    PlacedBetween(Inject(a, table), w, Inject(rest, table));
  }

  /** Text put between two others occurs right after the first. */
  lemma PlacedBetween(x: string, w: string, y: string)
    ensures OccursAt(x + (w + y), w, |x|)
  {
    assert (x + (w + y))[|x|..|x| + |w|] == w;
  }

  /** A token is replaced by the translation of its key, and the scan resumes after it. */
  lemma InjectToken(key: string, b: string, table: map<string, Value>)
    requires IsKey(key)
    ensures Inject(Token(key) + b, table) == Translation(table, key) + Inject(b, table)
  {
    var s := Token(key) + b;
    var n := |key|;
    assert s[|Open|..|Open| + n] == key;
    assert s[|Open| + n..|Open| + n + |Close|] == Close;
    assert StartsWith(s, Open);
    assert TokenAt(s, n);
    assert s[|Open| + n + |Close|..] == b;
  }

  /** A text split into literal runs and tokens. */
  datatype Piece = Run(text: string) | Ref(key: string)

  predicate WellFormed(p: Piece)
  {
    match p
    case Run(text) => Literal(text)
    case Ref(key) => IsKey(key)
  }

  function Flatten(ps: seq<Piece>): string
  {
    if |ps| == 0 then []
    else (match ps[0] case Run(text) => text case Ref(key) => Token(key)) + Flatten(ps[1..])
  }

  /** The reference meaning of the substitution: each token's translation, the literal runs as they are. */
  function Rendered(ps: seq<Piece>, table: map<string, Value>): string
  {
    if |ps| == 0 then []
    else (match ps[0] case Run(text) => text case Ref(key) => Translation(table, key)) + Rendered(ps[1..], table)
  }

  /** On any text built of literal runs and tokens, the substitution is the reference meaning. */
  lemma {:induction false} InjectPieces(ps: seq<Piece>, table: map<string, Value>)
    requires forall i | 0 <= i < |ps| :: WellFormed(ps[i])
    ensures Inject(Flatten(ps), table) == Rendered(ps, table)
  {
    if |ps| > 0 {
      InjectPieces(ps[1..], table);
      match ps[0]
      case Run(text) =>
        assert WellFormed(ps[0]);
        InjectLiteralPrefix(text, Flatten(ps[1..]), table);
      case Ref(key) =>
        assert WellFormed(ps[0]);
        InjectToken(key, Flatten(ps[1..]), table);
    }
  }

  /** Inserted text is not scanned again: a value that is itself a token survives the pass. */
  lemma InsertedTextNotRescanned(key: string, table: map<string, Value>)
    requires IsKey(key)
    requires Lookup(table, key) == Some(Str(Token(key)))
    ensures Inject(Token(key), table) == Token(key)
  {
    InjectToken(key, [], table);
    assert Token(key) + [] == Token(key);
  }

  /** A key with no entry leaves the bare key in place of its token. */
  lemma MissingKeyLeavesKey(key: string, b: string, table: map<string, Value>)
    requires IsKey(key)
    requires Lookup(table, key) == None
    ensures Inject(Token(key) + b, table) == key + Inject(b, table)
  {
    InjectToken(key, b, table);
  }

  /**
   * A token can appear in the output that was not in the input: a brace kept
   * from the text joins a value that begins `{i18n.`.
   */
  lemma TokenFormsAcrossValue(key: string, other: string, table: map<string, Value>)
    requires IsKey(key) && IsKey(other)
    requires Translation(table, other) == "{i18n." + key + Close
    ensures Inject("{" + Token(other), table) == Token(key)
  {
    var b := Token(other);
    assert b[1] == '{';
    KeptBrace(b, table);
    InjectToken(other, [], table);
    assert b + [] == b;
    assert Inject(b, table) == "{i18n." + key + Close;
    BraceBeforeOpening("{", "{i18n.", key, Close);
  }

  /** An opening is a brace followed by the rest of an opening. */
  lemma BraceBeforeOpening(a: string, b: string, c: string, d: string)
    requires a == "{" && b == "{i18n."
    ensures a + (b + c + d) == Open + c + d
  {
    assert a + b == Open;
  }

  /** A brace not followed by a token opening is copied. */
  lemma KeptBrace(b: string, table: map<string, Value>)
    requires |b| > 1 && b[1] != 'i'
    ensures Inject("{" + b, table) == "{" + Inject(b, table)
  {
    var s := "{" + b;
    assert s[1..] == b;
    KeptChar(s, table);
  }

  /** Where no token starts, the first character is copied. */
  lemma KeptChar(s: string, table: map<string, Value>)
    requires |s| > 0
    requires s[0] != '{' || (|s| > 2 && s[2] != 'i')
    ensures Inject(s, table) == [s[0]] + Inject(s[1..], table)
  {
    assert !StartsWith(s, Open) by {
      assert Open[0] == '{' && Open[2] == 'i';
    }
    assert MatchAt(s) == None;
  }
}

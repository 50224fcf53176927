/**
  A model of the server-side attribute serialiser `propsToString`: it turns an
  ordered list of attribute entries into the fragment that goes inside an HTML
  start tag, dropping absent attributes, rendering boolean attributes bare and
  quoting every other value with its double quotes escaped to `&quot;`.

  The method `PropsToString` follows the source loop step by step; `Render` is
  the function that specifies it, and the lemmas below state what the output
  looks like: which entries produce a token, in which order, how values are
  escaped, and how the fragment is framed by spaces.
*/
module PropsToString {

  // ---------------------------------------------------------------------------
  // Input
  // ---------------------------------------------------------------------------

  /** A JavaScript value as the serialiser distinguishes it. `Coerced` is any
      other value (a number, an object, a function), carried as the text that
      `String(value)` gives it; it is kept apart from `Str` because the source
      compares the value itself, not its text, with the empty string. */
  datatype Value =
    | Bool(b: bool)
    | Null
    | Undefined
    | Str(s: string)
    | Coerced(text: string)

  /** One `[key, value]` pair, in the order the object's entries are visited. */
  type Entry = (string, Value)

  /** `false`, `null` and `undefined` mean "attribute absent": no token. */
  predicate Omitted(v: Value): (r: bool)
    ensures r ==> !v.Str? && !v.Coerced?
    ensures v.Bool? ==> (r <==> !v.b)
  {
    v == Bool(false) || v.Null? || v.Undefined?
  }

  /** `key.startsWith('data-')`, spelled out character by character. */
  predicate IsDataAttribute(key: string): (r: bool)
    ensures r <==> "data-" <= key
  {
    |key| >= 5 && key[0] == 'd' && key[1] == 'a' && key[2] == 't' && key[3] == 'a' && key[4] == '-'
  }

  /** Whether a present attribute is written as `key="value"` rather than bare. */
  predicate HasValueClause(key: string, v: Value): (r: bool)
    ensures v.Str? ==> (r <==> v.s != "")
    ensures v.Coerced? ==> r
    ensures v == Bool(true) ==> (r <==> "data-" <= key)
  {
    (IsDataAttribute(key) || v != Bool(true)) && v != Str("")
  }

  /** `String(value)`. */
  function Text(v: Value): (r: string)
    ensures !v.Str? && !v.Coerced? ==> r != "" && '"' !in r && ' ' !in r
  {
    match v
    case Bool(b) => if b then "true" else "false"
    case Null => "null"
    case Undefined => "undefined"
    case Str(s) => s
    case Coerced(t) => t
  }

  /** Regrouping a concatenation, stated once so that the proofs below can
      regroup without the solver searching for it. */
  lemma AppendAssoc(a: string, b: string, c: string)
    ensures (a + b) + c == a + (b + c)
  {
  }

  // ---------------------------------------------------------------------------
  // Quote escaping and its inverse
  // ---------------------------------------------------------------------------

  const Entity: string := "&quot;"

  /** Every `"` becomes `&quot;`; every other character is kept. */
  function EscapeQuotes(s: string): (r: string)
    ensures |r| >= |s|
  {
    if s == [] then []
    else (if s[0] == '"' then Entity else [s[0]]) + EscapeQuotes(s[1..])
  }

  /** Reads `&quot;` back as `"`, scanning left to right. */
  function UnescapeQuotes(s: string): (r: string)
    ensures |r| <= |s|
    decreases |s|
  {
    if s == [] then []
    else if Entity <= s then ['"'] + UnescapeQuotes(s[|Entity|..])
    else [s[0]] + UnescapeQuotes(s[1..])
  }

  /** `s` holds no literal `&quot;`. */
  predicate NoEntity(s: string) {
    forall i | 0 <= i <= |s| :: !(Entity <= s[i..])
  }

  /** Escaping works character by character: it distributes over concatenation. */
  lemma {:induction false} EscapeQuotesAppend(a: string, b: string)
    ensures EscapeQuotes(a + b) == EscapeQuotes(a) + EscapeQuotes(b)
  {
    if a == [] {
      assert a + b == b;
    } else {
      var head := if a[0] == '"' then Entity else [a[0]];
      assert (a + b)[0] == a[0];
      assert (a + b)[1..] == a[1..] + b;
      assert EscapeQuotes(a + b) == head + EscapeQuotes(a[1..] + b);
      EscapeQuotesAppend(a[1..], b);
      AppendAssoc(head, EscapeQuotes(a[1..]), EscapeQuotes(b));
    }
  }

  /** On one character: `"` becomes `&quot;`, any other character stays. With
      `EscapeQuotesAppend` this determines the escape on every text. */
  lemma EscapeQuotesChar(c: char)
    ensures EscapeQuotes([c]) == if c == '"' then Entity else [c]
  {
    assert [c][1..] == [];
  }

  /** The escaped text holds no raw double quote. */
  lemma {:induction false} EscapeQuotesNoQuote(s: string)
    ensures '"' !in EscapeQuotes(s)
  {
    if s != [] {
      EscapeQuotesNoQuote(s[1..]);
      assert '"' !in Entity;
    }
  }

  /** Text without a double quote is left exactly as it is. */
  lemma {:induction false} EscapeQuotesIdentity(s: string)
    requires '"' !in s
    ensures EscapeQuotes(s) == s
  {
    if s != [] {
      assert '"' !in s[1..] by {
        forall k | 0 <= k < |s[1..]| ensures s[1..][k] != '"' {
          assert s[1..][k] == s[k + 1];
        }
      }
      EscapeQuotesIdentity(s[1..]);
    }
  }

  /** A prefix of an escaped text that contains no `&` was already there before escaping. */
  lemma {:induction false} EscapeQuotesPrefix(t: string, w: string)
    requires '&' !in w
    requires w <= EscapeQuotes(t)
    ensures w <= t
  {
    if w != [] {
      assert t != [];
      assert w[0] == EscapeQuotes(t)[0];
      assert t[0] != '"';
      assert EscapeQuotes(t) == [t[0]] + EscapeQuotes(t[1..]);
      assert w[1..] <= EscapeQuotes(t[1..]);
      assert '&' !in w[1..] by {
        forall k | 0 <= k < |w[1..]| ensures w[1..][k] != '&' {
          assert w[1..][k] == w[k + 1];
        }
      }
      EscapeQuotesPrefix(t[1..], w[1..]);
    }
  }

  lemma NoEntityTail(s: string)
    requires s != [] && NoEntity(s)
    ensures !(Entity <= s) && NoEntity(s[1..])
  {
    assert s[0..] == s;
    forall i | 0 <= i <= |s[1..]| ensures !(Entity <= s[1..][i..]) {
      assert s[1..][i..] == s[i + 1..];
    }
  }

  /** Escaping a text that does not start with `&quot;` or `"` does not
      produce `&quot;` at the front either. */
  lemma EscapedHead(s: string)
    requires s != [] && s[0] != '"' && !(Entity <= s)
    ensures !(Entity <= [s[0]] + EscapeQuotes(s[1..]))
  {
    var e := [s[0]] + EscapeQuotes(s[1..]);
    if Entity <= e {
      assert s[0] == e[0] == Entity[0] == '&';
      assert "quot;" <= EscapeQuotes(s[1..]) by {
        assert e[1..] == EscapeQuotes(s[1..]);
      }
      assert Entity == ['&'] + "quot;";
      EscapeQuotesPrefix(s[1..], "quot;");
      assert false;
    }
  }

  /** Unescaping restores the original text, provided it held no literal `&quot;`. */
  lemma {:induction false} UnescapeEscape(s: string)
    requires NoEntity(s)
    ensures UnescapeQuotes(EscapeQuotes(s)) == s
  {
    if s != [] {
      var rest := EscapeQuotes(s[1..]);
      NoEntityTail(s);
      UnescapeEscape(s[1..]);
      if s[0] == '"' {
        assert EscapeQuotes(s) == Entity + rest;
        assert (Entity + rest)[|Entity|..] == rest;
      } else {
        var e := [s[0]] + rest;
        assert EscapeQuotes(s) == e;
        EscapedHead(s);
        assert e[1..] == rest;
      }
    }
  }

  /** The escape is not injective: a literal `&quot;` and a lone `"` escape to
      the same text, which is why `UnescapeEscape` needs `NoEntity`. */
  lemma EscapeQuotesCollision()
    ensures EscapeQuotes("&quot;") == EscapeQuotes("\"") == "&quot;"
  {
    assert Entity[1..] == "quot;" && "quot;"[1..] == "uot;" && "uot;"[1..] == "ot;"
      && "ot;"[1..] == "t;" && "t;"[1..] == ";" && ";"[1..] == "";
    assert EscapeQuotes("\"") == Entity by { assert "\""[1..] == []; }
  }

  // ---------------------------------------------------------------------------
  // Tokens
  // ---------------------------------------------------------------------------

  /** The clause `="text"` that follows the key, with the text escaped. */
  function ValueClause(v: Value): (r: string)
    ensures |r| >= 3 && r[..2] == "=\"" && r[|r| - 1] == '"'
    ensures '"' !in r[2..|r| - 1]
  {
    EscapeQuotesNoQuote(Text(v));
    "=\"" + EscapeQuotes(Text(v)) + "\""
  }

  /** The token one present entry renders as. */
  function Token(key: string, v: Value): (r: string)
    ensures key <= r
  {
    if HasValueClause(key, v) then key + ValueClause(v) else key
  }

  /** Whatever follows the key in its token is a value clause, which starts
      with `=`. */
  lemma TokenAfterKey(key: string, v: Value)
    ensures |Token(key, v)| > |key| ==> Token(key, v)[|key|] == '=' && HasValueClause(key, v)
  {
    if HasValueClause(key, v) {
      assert (key + ValueClause(v))[|key|] == ValueClause(v)[0];
    }
  }

  /** `true` is written as the text `true`, which needs no escaping. */
  lemma TrueClause()
    ensures ValueClause(Bool(true)) == "=\"true\""
  {
    assert "true"[1..] == "rue" && "rue"[1..] == "ue" && "ue"[1..] == "e" && "e"[1..] == "";
  }

  /** The tokens of the present entries, in input order; defined from the back,
      as the source loop builds it. */
  function Tokens(props: seq<Entry>): (ts: seq<string>)
    ensures |ts| <= |props|
  {
    if props == [] then []
    else
      var last := props[|props| - 1];
      Tokens(props[..|props| - 1]) + (if Omitted(last.1) then [] else [Token(last.0, last.1)])
  }

  /** Positions of the entries that produce a token. */
  ghost function Present(props: seq<Entry>): set<nat> {
    set i: nat | i < |props| && !Omitted(props[i].1)
  }

  /** How many tokens the entries before position `i` produce. */
  ghost function Rank(props: seq<Entry>, i: nat): nat
    requires i <= |props|
  {
    |Tokens(props[..i])|
  }

  /** A `true` value renders bare, except on a `data-` attribute, where it is
      written out as `key="true"`. */
  lemma TrueCorners(key: string)
    ensures Token(key, Bool(true)) == (if IsDataAttribute(key) then key + "=\"true\"" else key)
  {
    TrueClause();
  }

  /** An empty string renders bare whatever the key; any other string, and any
      non-string value, gets a value clause, even one whose text is empty. */
  lemma ValueCorners(key: string, s: string, t: string)
    ensures Token(key, Str("")) == key
    ensures s != "" ==> Token(key, Str(s)) == key + ValueClause(Str(s))
    ensures Token(key, Coerced(t)) == key + ValueClause(Coerced(t))
    ensures ValueClause(Coerced("")) == "=\"\""
  {
  }

  /** Tokens distributes over concatenation of the entry list. */
  lemma {:induction false} TokensAppend(a: seq<Entry>, b: seq<Entry>)
    ensures Tokens(a + b) == Tokens(a) + Tokens(b)
  {
    if b == [] {
      assert a + b == a;
    } else {
      var n := |b| - 1;
      assert (a + b)[..|a + b| - 1] == a + b[..n];
      assert (a + b)[|a + b| - 1] == b[n];
      TokensAppend(a, b[..n]);
    }
  }

  /** A present entry's token sits at position `Rank(props, i)`. */
  lemma TokenAt(props: seq<Entry>, i: nat)
    requires i < |props| && !Omitted(props[i].1)
    ensures Rank(props, i) < |Tokens(props)|
    ensures Tokens(props)[Rank(props, i)] == Token(props[i].0, props[i].1)
  {
    assert props[..i + 1][..i] == props[..i];
    assert Tokens(props[..i + 1]) == Tokens(props[..i]) + [Token(props[i].0, props[i].1)];
    assert props == props[..i + 1] + props[i + 1..];
    TokensAppend(props[..i + 1], props[i + 1..]);
  }

  /** Tokens keep the relative order of their entries. */
  lemma RankIncreases(props: seq<Entry>, i: nat, j: nat)
    requires i < j <= |props| && !Omitted(props[i].1)
    ensures Rank(props, i) < Rank(props, j)
  {
    assert props[..i + 1][..i] == props[..i];
    assert |Tokens(props[..i + 1])| == Rank(props, i) + 1;
    assert props[..j] == props[..i + 1] + props[i + 1..j];
    TokensAppend(props[..i + 1], props[i + 1..j]);
  }

  /** Every token comes from some present entry. */
  lemma {:induction false} RankOnto(props: seq<Entry>, p: nat)
    requires p < |Tokens(props)|
    ensures exists i: nat :: i < |props| && !Omitted(props[i].1) && Rank(props, i) == p
  {
    var n := |props| - 1;
    var init := props[..n];
    assert forall i: nat | i <= n :: init[..i] == props[..i];
    if p < |Tokens(init)| {
      RankOnto(init, p);
      var i: nat :| i < |init| && !Omitted(init[i].1) && Rank(init, i) == p;
      assert Rank(props, i) == p;
    } else {
      assert Rank(props, n) == p;
    }
  }

  /** One token per present entry. */
  lemma {:induction false} TokenCount(props: seq<Entry>)
    ensures |Tokens(props)| == |Present(props)|
  {
    if props != [] {
      var n := |props| - 1;
      var init := props[..n];
      TokenCount(init);
      assert forall i: nat | i < n :: init[i] == props[i];
      if Omitted(props[n].1) {
        assert Present(props) == Present(init);
      } else {
        assert Present(props) == Present(init) + {n};
        assert n !in Present(init);
      }
    }
  }

  /** No token at all exactly when every entry is absent. */
  lemma {:induction false} TokensEmpty(props: seq<Entry>)
    ensures Tokens(props) == [] <==> forall i | 0 <= i < |props| :: Omitted(props[i].1)
  {
    TokenCount(props);
    if Tokens(props) == [] {
      assert Present(props) == {};
      forall i | 0 <= i < |props| ensures Omitted(props[i].1) {
        assert i !in Present(props);
      }
    } else {
      var i: nat :| i in Present(props);
    }
  }

  // ---------------------------------------------------------------------------
  // The rendered fragment and reading it back
  // ---------------------------------------------------------------------------

  /** `tokens.join(' ')`. */
  function Join(ts: seq<string>): (r: string)
    ensures ts != [] ==> ts[0] <= r
    ensures |r| + 1 >= |ts|
  {
    if |ts| == 0 then ""
    else if |ts| == 1 then ts[0]
    else ts[0] + " " + Join(ts[1..])
  }

  /** What `propsToString` returns. */
  function Render(props: seq<Entry>): (r: string)
    ensures r == "" || r[0] == ' '
  {
    var ts := Tokens(props);
    if |ts| > 0 then " " + Join(ts) else ""
  }

  /** Length of the leading token of `s`: it runs to the first space that is not
      inside a quoted value (`quoted` says whether `s` starts inside one). */
  function TokenEnd(s: string, quoted: bool): (n: nat)
    ensures n <= |s|
    ensures n < |s| ==> s[n] == ' '
  {
    if s == [] then 0
    else if s[0] == ' ' && !quoted then 0
    else 1 + TokenEnd(s[1..], if s[0] == '"' then !quoted else quoted)
  }

  /** Splits a joined fragment at the spaces outside quoted values. */
  function SplitTokens(s: string): (ts: seq<string>)
    ensures |ts| >= 1
    decreases |s|
  {
    var n := TokenEnd(s, false);
    if n == |s| then [s] else [s[..n]] + SplitTokens(s[n + 1..])
  }

  /** Reads a rendered fragment back into its tokens. */
  function ParseAttributes(out: string): seq<string> {
    if out == [] then [] else SplitTokens(out[1..])
  }

  /** A name that HTML can carry in a start tag: no space, no double quote. */
  predicate AttributeName(key: string) {
    ' ' !in key && '"' !in key
  }

  /** A token ends where it should when a space follows it. */
  predicate Delimited(t: string) {
    TokenEnd(t + " ", false) == |t|
  }

  lemma {:induction false} TokenEndPlain(a: string, rest: string, quoted: bool)
    requires '"' !in a && (!quoted ==> ' ' !in a)
    ensures TokenEnd(a + rest, quoted) == |a| + TokenEnd(rest, quoted)
  {
    if a != [] {
      assert a[0] in a;
      assert (a + rest)[0] == a[0];
      assert (a + rest)[1..] == a[1..] + rest;
      assert TokenEnd(a + rest, quoted) == 1 + TokenEnd(a[1..] + rest, quoted);
      assert forall c | c in a[1..] :: c in a;
      TokenEndPlain(a[1..], rest, quoted);
    } else {
      assert a + rest == rest;
    }
  }

  lemma TokenEndQuote(rest: string, quoted: bool)
    ensures TokenEnd("\"" + rest, quoted) == 1 + TokenEnd(rest, !quoted)
  {
    assert ("\"" + rest)[1..] == rest;
  }

  /** A value clause runs to its closing quote, whatever spaces its text holds. */
  lemma ValueClauseEnd(v: Value, rest: string)
    ensures TokenEnd(ValueClause(v) + rest, false) == |ValueClause(v)| + TokenEnd(rest, false)
  {
    var e := EscapeQuotes(Text(v));
    EscapeQuotesNoQuote(Text(v));
    var inner := e + ("\"" + rest);
    AppendAssoc("=\"" + e, "\"", rest);
    AppendAssoc("=\"", e, "\"" + rest);
    AppendAssoc("=", "\"", inner);
    assert "=" + "\"" == "=\"";
    TokenEndPlain("=", "\"" + inner, false);
    TokenEndQuote(inner, false);
    TokenEndPlain(e, "\"" + rest, true);
    TokenEndQuote(rest, true);
  }

  /** A token whose key is an attribute name runs to its last character. */
  lemma TokenEndToken(key: string, v: Value, rest: string)
    requires AttributeName(key)
    ensures TokenEnd(Token(key, v) + rest, false) == |Token(key, v)| + TokenEnd(rest, false)
  {
    if HasValueClause(key, v) {
      ValueClauseEnd(v, rest);
      AppendAssoc(key, ValueClause(v), rest);
      TokenEndPlain(key, ValueClause(v) + rest, false);
    } else {
      TokenEndPlain(key, rest, false);
    }
  }

  lemma {:induction false} TokenEndExtend(a: string, b: string, quoted: bool)
    requires TokenEnd(a, quoted) < |a|
    ensures TokenEnd(a + b, quoted) == TokenEnd(a, quoted)
  {
    assert (a + b)[0] == a[0];
    if !(a[0] == ' ' && !quoted) {
      assert (a + b)[1..] == a[1..] + b;
      TokenEndExtend(a[1..], b, if a[0] == '"' then !quoted else quoted);
    }
  }

  /** A delimited token alone, or followed by a space, is split off whole. */
  lemma DelimitedEnds(t: string, b: string)
    requires Delimited(t)
    ensures TokenEnd(t, false) == |t|
    ensures TokenEnd(t + " " + b, false) == |t|
  {
    if TokenEnd(t, false) < |t| {
      TokenEndExtend(t, " ", false);
    }
    TokenEndExtend(t + " ", b, false);
  }

  /** Splitting undoes joining for delimited tokens. */
  lemma {:induction false} SplitJoin(ts: seq<string>)
    requires |ts| >= 1
    requires forall t | t in ts :: Delimited(t)
    ensures SplitTokens(Join(ts)) == ts
  {
    var t := ts[0];
    assert Delimited(t);
    if |ts| == 1 {
      DelimitedEnds(t, "");
      assert SplitTokens(t) == [t];
    } else {
      var tail := ts[1..];
      var s := t + " " + Join(tail);
      assert Join(ts) == s;
      DelimitedEnds(t, Join(tail));
      assert s[..|t|] == t;
      assert s[|t| + 1..] == Join(tail);
      assert SplitTokens(s) == [t] + SplitTokens(Join(tail));
      assert forall u | u in tail :: u in ts;
      SplitJoin(tail);
      assert ts == [t] + tail;
    }
  }

  /** When the keys of present entries are attribute names, every token is
      delimited. */
  lemma {:induction false} TokensWellFormed(props: seq<Entry>)
    requires forall i | 0 <= i < |props| && !Omitted(props[i].1) :: AttributeName(props[i].0)
    ensures forall t | t in Tokens(props) :: Delimited(t)
  {
    if props != [] {
      var n := |props| - 1;
      var init := props[..n];
      assert forall i | 0 <= i < n :: init[i] == props[i];
      TokensWellFormed(init);
      var (key, v) := props[n];
      if !Omitted(v) {
        TokenEndToken(key, v, " ");
      }
    }
  }

  /** A key that is non-empty and neither starts nor ends with a space. */
  predicate Trimmed(key: string) {
    key != "" && key[0] != ' ' && key[|key| - 1] != ' '
  }

  /** A trimmed key gives a trimmed token: the token starts with the key and
      ends either with the key or with the closing quote of its value clause. */
  lemma TokenTrimmed(key: string, v: Value)
    requires Trimmed(key)
    ensures Trimmed(Token(key, v))
  {
    TokenAfterKey(key, v);
    var t := Token(key, v);
    assert t[0] == key[0];
    if HasValueClause(key, v) {
      assert t[|t| - 1] == ValueClause(v)[|ValueClause(v)| - 1];
    }
  }

  /** When the keys of present entries are trimmed, whatever other characters
      they hold, every token is trimmed. */
  lemma {:induction false} TokensTrimmed(props: seq<Entry>)
    requires forall i | 0 <= i < |props| && !Omitted(props[i].1) :: Trimmed(props[i].0)
    ensures forall t | t in Tokens(props) :: Trimmed(t)
  {
    if props != [] {
      var n := |props| - 1;
      var init := props[..n];
      assert forall i | 0 <= i < n :: init[i] == props[i];
      TokensTrimmed(init);
      if !Omitted(props[n].1) {
        TokenTrimmed(props[n].0, props[n].1);
      }
    }
  }

  lemma {:induction false} JoinEdges(ts: seq<string>)
    requires |ts| >= 1 && forall k | 0 <= k < |ts| :: ts[k] != ""
    ensures Join(ts) != ""
    ensures Join(ts)[0] == ts[0][0]
    ensures Join(ts)[|Join(ts)| - 1] == ts[|ts| - 1][|ts[|ts| - 1]| - 1]
  {
    if |ts| > 1 {
      JoinEdges(ts[1..]);
    }
  }

  /** The framing of the fragment: empty exactly when no entry is present,
      otherwise one space followed by the tokens joined with single spaces. */
  lemma {:induction false} RenderFraming(props: seq<Entry>)
    ensures Render(props) == "" <==> forall i | 0 <= i < |props| :: Omitted(props[i].1)
    ensures Render(props) != "" ==> Render(props)[0] == ' ' && Render(props)[1..] == Join(Tokens(props))
  {
    TokensEmpty(props);
  }

  /** When the keys of present entries are non-empty and neither start nor end
      with a space, the fragment has exactly one leading space and no trailing
      one. */
  lemma RenderEdges(props: seq<Entry>)
    requires forall i | 0 <= i < |props| && !Omitted(props[i].1) :: Trimmed(props[i].0)
    ensures Render(props) != "" ==> |Render(props)| >= 2 && Render(props)[1] != ' '
    ensures Render(props) != "" ==> Render(props)[|Render(props)| - 1] != ' '
  {
    TokensTrimmed(props);
    var ts := Tokens(props);
    if |ts| > 0 {
      assert forall k | 0 <= k < |ts| :: ts[k] in ts;
      JoinEdges(ts);
      assert ts[0] in ts && ts[|ts| - 1] in ts;
    }
  }

  /** Reading the fragment back yields exactly the tokens, one per present entry:
      the number of space-separated tokens (spaces inside quoted values aside)
      is the number of present entries. */
  lemma RenderParses(props: seq<Entry>)
    requires forall i | 0 <= i < |props| && !Omitted(props[i].1) :: AttributeName(props[i].0)
    ensures ParseAttributes(Render(props)) == Tokens(props)
    ensures |ParseAttributes(Render(props))| == |Present(props)|
  {
    TokenCount(props);
    var ts := Tokens(props);
    if |ts| > 0 {
      TokensWellFormed(props);
      SplitJoin(ts);
      assert Render(props)[1..] == Join(ts);
    }
  }

  /** A single entry renders as nothing or as one space and its token. */
  lemma RenderSingle(key: string, v: Value)
    ensures Render([(key, v)]) == if Omitted(v) then "" else " " + Token(key, v)
  {
    assert [(key, v)][..0] == [];
  }

  // Concrete tokens. By `RenderSingle`, a one-entry input renders as a space
  // followed by its token, or as nothing when its value is `false`.

  lemma BooleanTokenExamples()
    ensures Token("disabled", Bool(true)) == "disabled"
    ensures Token("data-test", Bool(true)) == "data-test=\"true\""
  {
    TrueCorners("disabled");
    assert !IsDataAttribute("disabled") by { assert "disabled"[1] != "data-"[1]; }
    TrueCorners("data-test");
  }

  lemma StringTokenExamples()
    ensures Token("class", Str("foo")) == "class=\"foo\""
    ensures Token("title", Str("")) == "title"
  {
    assert "foo"[1..] == "oo" && "oo"[1..] == "o" && "o"[1..] == "";
    assert ValueClause(Str("foo")) == "=\"foo\"";
  }

  lemma QuotedTokenExample()
    ensures Token("title", Str("a\"b")) == "title=\"a&quot;b\""
  {
    assert EscapeQuotes("a\"b") == "a&quot;b" by {
      assert "a\"b" == ['a', '"', 'b'];
    }
  }

  // ---------------------------------------------------------------------------
  // The serialiser
  // ---------------------------------------------------------------------------

  /** `propsToString`: visits the entries in order, skips the absent ones,
      builds each token from its key and optional value clause, collects the
      tokens and joins them behind one leading space. */
  method PropsToString(props: seq<Entry>) returns (out: string)
    ensures out == Render(props)
  {
    var handledAttributes: seq<string> := [];
    for i := 0 to |props|
      invariant handledAttributes == Tokens(props[..i])
    {
      assert props[..i + 1][..i] == props[..i];
      var (key, value) := props[i];
      if value == Bool(false) || value == Null || value == Undefined {
        continue;
      }
      var attribute := key;
      if (IsDataAttribute(key) || value != Bool(true)) && value != Str("") {
        attribute := attribute + ValueClause(value);
      }
      handledAttributes := handledAttributes + [attribute];
    }
    assert props[..|props|] == props;
    out := if |handledAttributes| > 0 then " " + Join(handledAttributes) else "";
  }
}

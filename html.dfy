/**
 * `html.escape(s, quote=True)` and the line-break rewrite
 * `.replace("\n", "<br>")` that the formatter applies to prose.
 */
module Html {

  /** The replacement of one character under `html.escape` with `quote=True`.
      Escaping `&` first, as the library does, is the same as this map. */
  function EscapeChar(c: char): (r: string) {
    match c
    case '&' => "&amp;"
    case '<' => "&lt;"
    case '>' => "&gt;"
    case '"' => "&quot;"
    case '\'' => "&#x27;"
    case _ => [c]
  }

  /** The characters that markup would otherwise read as syntax. */
  predicate IsMarkupChar(c: char) {
    c == '&' || c == '<' || c == '>' || c == '"' || c == '\''
  }

  /** `html.escape(s)`: each character replaced by `EscapeChar`. */
  function Escape(s: string): (r: string)
    ensures |r| >= |s|
  {
    if s == [] then [] else EscapeChar(s[0]) + Escape(s[1..])
  }

  /** `s.replace("\n", "<br>")`. */
  function BreakLines(s: string): (r: string)
    ensures |r| >= |s|
  {
    if s == [] then [] else (if s[0] == '\n' then "<br>" else [s[0]]) + BreakLines(s[1..])
  }

  /** How one prose character ends up in the output: escaped, or `<br>` for a newline. */
  function ProseChar(c: char): (r: string) {
    if c == '\n' then "<br>" else EscapeChar(c)
  }

  /** Escaping a character is the identity exactly when it is not a markup character. */
  lemma EscapeCharIdentity(c: char)
    ensures EscapeChar(c) == [c] <==> !IsMarkupChar(c)
    ensures |EscapeChar(c)| >= 1
    ensures IsMarkupChar(c) ==> EscapeChar(c)[0] == '&'
  {
  }

  /** Escaping distributes over concatenation. */
  lemma {:induction false} EscapeAppend(a: string, b: string)
    ensures Escape(a + b) == Escape(a) + Escape(b)
  {
    if a != [] {
      assert (a + b)[1..] == a[1..] + b;
      EscapeAppend(a[1..], b);
    } else {
      assert a + b == b;
    }
  }

  /** Line breaking distributes over concatenation. */
  lemma {:induction false} BreakLinesAppend(a: string, b: string)
    ensures BreakLines(a + b) == BreakLines(a) + BreakLines(b)
  {
    if a != [] {
      assert (a + b)[1..] == a[1..] + b;
      BreakLinesAppend(a[1..], b);
    } else {
      assert a + b == b;
    }
  }

  /** Escaping leaves text without markup characters unchanged. */
  lemma {:induction false} EscapePlain(s: string)
    requires forall k :: 0 <= k < |s| ==> !IsMarkupChar(s[k])
    ensures Escape(s) == s
  {
    if s != [] {
      EscapePlain(s[1..]);
    }
  }

  /** Line breaking leaves text without newlines unchanged. */
  lemma {:induction false} BreakLinesPlain(s: string)
    requires forall k :: 0 <= k < |s| ==> s[k] != '\n'
    ensures BreakLines(s) == s
  {
    if s != [] {
      BreakLinesPlain(s[1..]);
    }
  }

  /** Escaped text holds no raw `<`, `>`, `"` or `'`. */
  lemma {:induction false} EscapedIsInert(s: string)
    ensures forall k :: 0 <= k < |Escape(s)| ==> !IsMarkupChar(Escape(s)[k]) || Escape(s)[k] == '&'
  {
    if s != [] {
      EscapedIsInert(s[1..]);
      var e := EscapeChar(s[0]);
      var rest := Escape(s[1..]);
      assert Escape(s) == e + rest;
      forall k | 0 <= k < |e| + |rest| ensures !IsMarkupChar((e + rest)[k]) || (e + rest)[k] == '&' {
        if k >= |e| {
          assert (e + rest)[k] == rest[k - |e|];
        }
      }
    }
  }

  /** `t` starts with one of the five entities `html.escape` writes. */
  predicate BeginsEntity(t: string) {
    "&amp;" <= t || "&lt;" <= t || "&gt;" <= t || "&quot;" <= t || "&#x27;" <= t
  }

  /** Inside one escaped character followed by anything, a `&` can only be the
      first character, and there it begins an entity. */
  lemma AmpersandInEscapeChar(c: char, rest: string, k: nat)
    requires k < |EscapeChar(c)| && (EscapeChar(c) + rest)[k] == '&'
    ensures k == 0 && BeginsEntity(EscapeChar(c) + rest)
  {
    var e := EscapeChar(c);
    assert (e + rest)[k] == e[k];
    assert (e + rest)[..|e|] == e;
  }

  /** Every `&` in escaped text begins an entity. */
  lemma {:induction false} EscapedAmpersands(s: string)
    ensures forall k :: 0 <= k < |Escape(s)| && Escape(s)[k] == '&' ==> BeginsEntity(Escape(s)[k..])
  {
    if s != [] {
      EscapedAmpersands(s[1..]);
      var e := EscapeChar(s[0]);
      var rest := Escape(s[1..]);
      assert Escape(s) == e + rest;
      forall k | 0 <= k < |e + rest| && (e + rest)[k] == '&' ensures BeginsEntity((e + rest)[k..]) {
        if k >= |e| {
          assert (e + rest)[k] == rest[k - |e|];
          assert (e + rest)[k..] == rest[k - |e|..];
        } else {
          AmpersandInEscapeChar(s[0], rest, k);
          assert (e + rest)[0..] == e + rest;
        }
      }
    }
  }

  /** Escaping one character keeps its newline count. */
  lemma EscapeCharNewlines(c: char)
    ensures multiset(EscapeChar(c))['\n'] == multiset([c])['\n']
  {
    if IsMarkupChar(c) {
      var e := EscapeChar(c);
      assert forall k :: 0 <= k < |e| ==> e[k] != '\n';
      assert '\n' !in multiset(e);
    }
  }

  /** Escaping keeps the number of newlines: code spans keep theirs verbatim. */
  lemma {:induction false} EscapeKeepsNewlines(s: string)
    ensures multiset(Escape(s))['\n'] == multiset(s)['\n']
  {
    if s != [] {
      EscapeKeepsNewlines(s[1..]);
      var e := EscapeChar(s[0]);
      EscapeCharNewlines(s[0]);
      calc {
        multiset(Escape(s))['\n'];
        multiset(e + Escape(s[1..]))['\n'];
        multiset(e)['\n'] + multiset(Escape(s[1..]))['\n'];
        multiset([s[0]])['\n'] + multiset(s[1..])['\n'];
        { assert s == [s[0]] + s[1..]; }
        multiset(s)['\n'];
      }
    }
  }

  /** Line-breaking an escaped character gives its prose image, which holds no
      newline. */
  lemma ProseCharBreak(c: char)
    ensures BreakLines(EscapeChar(c)) == ProseChar(c)
    ensures '\n' !in ProseChar(c) && |ProseChar(c)| >= 1
  {
    if c == '\n' {
      assert BreakLines(EscapeChar(c)) == "<br>";
    } else {
      EscapeCharIdentity(c);
      BreakLinesPlain(EscapeChar(c));
    }
  }

  /** A prose piece, once escaped and line-broken, holds no newline at all and is
      the per-character image of the input under `ProseChar`. */
  lemma {:induction false} ProseEncoding(s: string)
    ensures BreakLines(Escape(s)) == if s == [] then [] else ProseChar(s[0]) + BreakLines(Escape(s[1..]))
    ensures '\n' !in BreakLines(Escape(s))
    ensures |BreakLines(Escape(s))| >= |s|
  {
    if s != [] {
      ProseEncoding(s[1..]);
      BreakLinesAppend(EscapeChar(s[0]), Escape(s[1..]));
      ProseCharBreak(s[0]);
    }
  }
}

/**
 * `format_message`: the prose pieces are escaped and line-broken, the code
 * pieces escaped and wrapped in a preformatted block, and the pieces are
 * concatenated in source order.
 *
 * `Formatted` is the value the formatting loop computes; `ParseProse` and
 * `ParseCode` read such markup back, and the round trip through them shows
 * that the output escapes every markup character, turns prose newlines into
 * `<br>`, keeps code newlines, and loses nothing of the input.
 */
module Format {
  import opened Wrappers
  import opened Html
  import opened Fences
  import opened Seqs

  /** The inline style of a code block, part of the layout. */
  const PreStyle: string := " style=\"white-space: pre-wrap; word-wrap: break-word;\""
  /** The opening of a code block. */
  const PreOpen: string := "<pre" + PreStyle + "><code>"
  /** The closing of a code block. */
  const PreClose: string := "</code></pre>"

  /** `[html.escape(block) for block in text_blocks]`. */
  function EscapeAll(blocks: seq<string>): (r: seq<string>) {
    seq(|blocks|, k requires 0 <= k < |blocks| => Escape(blocks[k]))
  }

  /** What round `i` of the formatting loop appends: the line-broken prose
      block, then the escaped code block if there is one. */
  function Piece(texts: seq<string>, codes: seq<string>, i: nat): (r: string)
    requires i < |texts|
  {
    BreakLines(texts[i]) + (if i < |codes| then PreOpen + Escape(codes[i]) + PreClose else "")
  }

  /** What the rounds from `i` on append together. */
  function Assemble(texts: seq<string>, codes: seq<string>, i: nat): (r: string)
    requires i <= |texts|
    decreases |texts| - i
  {
    if i == |texts| then "" else Piece(texts, codes, i) + Assemble(texts, codes, i + 1)
  }

  /** The result of `format_message(text)`. */
  function Formatted(text: string): (r: string)
    ensures text == [] ==> r == []
  {
    var blocks := SplitFences(text);
    assert text == [] ==> EscapeAll(blocks.prose) == [[]] && Assemble([[]], [], 0) == BreakLines([]) + Assemble([[]], [], 1);
    Assemble(EscapeAll(blocks.prose), blocks.code, 0)
  }

  /** One round of the formatting loop: appending the round's piece to what
      came before keeps the sum with the later rounds unchanged. */
  lemma AssembleStep(texts: seq<string>, codes: seq<string>, i: nat, before: string, mid: string, after: string)
    requires i < |texts|
    requires mid == before + BreakLines(texts[i])
    requires after == if i < |codes| then mid + (PreOpen + Escape(codes[i]) + PreClose) else mid
    ensures after + Assemble(texts, codes, i + 1) == before + Assemble(texts, codes, i)
  {
    var line := BreakLines(texts[i]);
    var block := if i < |codes| then PreOpen + Escape(codes[i]) + PreClose else "";
    var later := Assemble(texts, codes, i + 1);
    assert Assemble(texts, codes, i) == (line + block) + later;
    if i >= |codes| {
      assert after == (before + line) + block;
    }
    Assoc(before, line, block);
    Assoc(before + line, block, later);
    Assoc(before, line + block, later);
  }

  /** `format_message`: the loop over the text blocks. */
  method FormatMessage(text: string) returns (formattedText: string)
    ensures formattedText == Formatted(text)
  {
    var blocks := SplitFences(text);
    var textBlocks := EscapeAll(blocks.prose);
    var codeBlocks := blocks.code;
    ghost var whole := Assemble(textBlocks, codeBlocks, 0);
    formattedText := "";
    assert formattedText + whole == whole;
    for i := 0 to |textBlocks|
      invariant formattedText + Assemble(textBlocks, codeBlocks, i) == whole
    {
      ghost var before := formattedText;
      formattedText := formattedText + BreakLines(textBlocks[i]);
      ghost var mid := formattedText;
      if i < |codeBlocks| {
        formattedText := formattedText + (PreOpen + Escape(codeBlocks[i]) + PreClose);
      }
      AssembleStep(textBlocks, codeBlocks, i, before, mid, formattedText);
    }
    assert Assemble(textBlocks, codeBlocks, |textBlocks|) == "";
    assert formattedText + "" == formattedText;
  }

  // Reading the markup back

  /** Decodes the character at the head of `t`: an entity, `<br>` (only in
      prose), or a character that needs no escaping (a raw newline only in
      code). Returns the character and the width it took. */
  function DecodeUnit(t: string, inCode: bool): (r: Option<(char, nat)>)
    ensures r.Some? ==> 1 <= r.value.1 <= |t|
  {
    if t == [] then None
    else if t[0] == '&' then DecodeEntity(t)
    else if t[0] == '<' then (if !inCode && "<br>" <= t then Some(('\n', 4)) else None)
    else if IsMarkupChar(t[0]) || (!inCode && t[0] == '\n') then None
    else Some((t[0], 1))
  }

  /** Decodes one of the five entities `html.escape` produces. */
  function DecodeEntity(t: string): (r: Option<(char, nat)>)
    ensures r.Some? ==> 1 <= r.value.1 <= |t|
  {
    if "&amp;" <= t then Some(('&', 5))
    else if "&lt;" <= t then Some(('<', 4))
    else if "&gt;" <= t then Some(('>', 4))
    else if "&quot;" <= t then Some(('"', 6))
    else if "&#x27;" <= t then Some(('\'', 6))
    else None
  }

  /** Prepends text to the first prose piece of a parse. */
  function AddProse(p: string, r: Option<Blocks>): (q: Option<Blocks>)
    requires r.Some? ==> |r.value.prose| >= 1
  {
    match r
    case None => None
    case Some(b) => Some(Blocks([p + b.prose[0]] + b.prose[1..], b.code))
  }

  /** Prepends text to the first code piece of a parse. */
  function AddCode(c: string, r: Option<Blocks>): (q: Option<Blocks>)
    requires r.Some? ==> |r.value.code| >= 1
  {
    match r
    case None => None
    case Some(b) => Some(Blocks(b.prose, [c + b.code[0]] + b.code[1..]))
  }

  /** Reads formatted markup that starts in prose back into its pieces; `None`
      when the markup holds a raw markup character or a raw newline in prose. */
  function ParseProse(t: string): (r: Option<Blocks>)
    ensures r.Some? ==> |r.value.prose| == |r.value.code| + 1
    decreases |t|
  {
    if t == [] then Some(Blocks([""], []))
    else if PreOpen <= t then
      match ParseCode(t[|PreOpen|..])
      case None => None
      case Some(b) => Some(Blocks([""] + b.prose, b.code))
    else
      match DecodeUnit(t, false)
      case None => None
      case Some((c, n)) => AddProse([c], ParseProse(t[n..]))
  }

  /** Reads markup that starts inside a code block; `None` when the block is
      never closed or holds a raw markup character. */
  function ParseCode(t: string): (r: Option<Blocks>)
    ensures r.Some? ==> |r.value.prose| == |r.value.code| && |r.value.code| >= 1
    decreases |t|
  {
    if t == [] then None
    else if PreClose <= t then
      match ParseProse(t[|PreClose|..])
      case None => None
      case Some(b) => Some(Blocks(b.prose, [""] + b.code))
    else
      match DecodeUnit(t, true)
      case None => None
      case Some((c, n)) => AddCode([c], ParseCode(t[n..]))
  }

  /** An entity is read back as the character it escapes, whatever follows. */
  lemma DecodeEscapedMarkup(c: char, rest: string)
    requires IsMarkupChar(c)
    ensures DecodeEntity(EscapeChar(c) + rest) == Some((c, |EscapeChar(c)|))
  {
    var t := EscapeChar(c) + rest;
    assert t[..|EscapeChar(c)|] == EscapeChar(c);
    match c
    case '&' =>
    case '<' => assert t[1] == 'l';
    case '>' => assert t[1] == 'g';
    case '"' => assert t[1] == 'q';
    case '\'' => assert t[1] == '#';
  }

  /** One escaped character is read back whatever follows it: in prose a
      newline is read from `<br>`, in code from a raw newline. */
  lemma DecodeEncodedChar(c: char, inCode: bool, rest: string)
    ensures var e := if inCode then EscapeChar(c) else ProseChar(c);
            DecodeUnit(e + rest, inCode) == Some((c, |e|))
  {
    var e := if inCode then EscapeChar(c) else ProseChar(c);
    var t := e + rest;
    if IsMarkupChar(c) {
      DecodeEscapedMarkup(c, rest);
      assert t[0] == '&';
    } else if !inCode && c == '\n' {
      assert t[..4] == "<br>";
    } else {
      assert e == [c];
      assert t[0] == c;
    }
  }

  /** Escaped text never starts a code block's opening or closing marker. */
  lemma NoMarkerAtEncodedChar(c: char, inCode: bool, rest: string)
    ensures var e := if inCode then EscapeChar(c) else ProseChar(c);
            !(PreOpen <= e + rest) && !(PreClose <= e + rest)
  {
    var e := if inCode then EscapeChar(c) else ProseChar(c);
    var t := e + rest;
    assert PreOpen[0] == '<' && PreOpen[1] == 'p' && PreClose[0] == '<' && PreClose[1] == '/';
    if c == '\n' && !inCode {
      assert t[1] == 'b';
    } else {
      assert t[0] == e[0];
      assert e[0] != '<';
    }
  }

  /** Reading one encoded prose character. */
  lemma ParseProseStep(c: char, tail: string)
    ensures ParseProse(ProseChar(c) + tail) == AddProse([c], ParseProse(tail))
  {
    var e := ProseChar(c);
    var t := e + tail;
    DecodeEncodedChar(c, false, tail);
    NoMarkerAtEncodedChar(c, false, tail);
    assert t[|e|..] == tail;
  }

  /** Reading one encoded code character. */
  lemma ParseCodeStep(c: char, tail: string)
    ensures ParseCode(EscapeChar(c) + tail) == AddCode([c], ParseCode(tail))
  {
    var e := EscapeChar(c);
    var t := e + tail;
    DecodeEncodedChar(c, true, tail);
    NoMarkerAtEncodedChar(c, true, tail);
    assert t[|e|..] == tail;
  }

  /** Prepending nothing changes nothing. */
  lemma AddNothing(r: Option<Blocks>)
    ensures r.Some? && |r.value.prose| >= 1 ==> AddProse("", r) == r
    ensures r.Some? && |r.value.code| >= 1 ==> AddCode("", r) == r
    ensures r.None? ==> AddProse("", r) == r && AddCode("", r) == r
  {
    if r.Some? {
      var b := r.value;
      if |b.prose| >= 1 {
        assert "" + b.prose[0] == b.prose[0];
        assert [b.prose[0]] + b.prose[1..] == b.prose;
      }
      if |b.code| >= 1 {
        assert "" + b.code[0] == b.code[0];
        assert [b.code[0]] + b.code[1..] == b.code;
      }
    }
  }

  /** Two prepends to the first prose piece are one. */
  lemma AddProseTwice(a: string, b: string, r: Option<Blocks>)
    requires r.Some? ==> |r.value.prose| >= 1
    ensures AddProse(a, AddProse(b, r)) == AddProse(a + b, r)
  {
    if r.Some? {
      assert a + (b + r.value.prose[0]) == (a + b) + r.value.prose[0];
    }
  }

  /** Two prepends to the first code piece are one. */
  lemma AddCodeTwice(a: string, b: string, r: Option<Blocks>)
    requires r.Some? ==> |r.value.code| >= 1
    ensures AddCode(a, AddCode(b, r)) == AddCode(a + b, r)
  {
    if r.Some? {
      assert a + (b + r.value.code[0]) == (a + b) + r.value.code[0];
    }
  }

  /** Escaped, line-broken prose is read back as that prose, prepended to
      whatever follows. */
  lemma {:induction false} ParseProseEncoded(p: string, rest: string)
    ensures ParseProse(BreakLines(Escape(p)) + rest) == AddProse(p, ParseProse(rest))
  {
    ProseEncoding(p);
    if p == [] {
      assert BreakLines(Escape(p)) + rest == rest;
      AddNothing(ParseProse(rest));
    } else {
      var tail := BreakLines(Escape(p[1..])) + rest;
      Assoc(ProseChar(p[0]), BreakLines(Escape(p[1..])), rest);
      ParseProseStep(p[0], tail);
      ParseProseEncoded(p[1..], rest);
      AddProseTwice([p[0]], p[1..], ParseProse(rest));
      assert [p[0]] + p[1..] == p;
    }
  }

  /** Escaped code is read back as that code, prepended to whatever follows. */
  lemma {:induction false} ParseCodeEncoded(c: string, rest: string)
    ensures ParseCode(Escape(c) + rest) == AddCode(c, ParseCode(rest))
  {
    if c == [] {
      assert Escape(c) + rest == rest;
      AddNothing(ParseCode(rest));
    } else {
      var tail := Escape(c[1..]) + rest;
      assert Escape(c) == EscapeChar(c[0]) + Escape(c[1..]);
      Assoc(EscapeChar(c[0]), Escape(c[1..]), rest);
      ParseCodeStep(c[0], tail);
      ParseCodeEncoded(c[1..], rest);
      AddCodeTwice([c[0]], c[1..], ParseCode(rest));
      assert [c[0]] + c[1..] == c;
    }
  }

  /** The last prose piece reads back on its own. */
  lemma ParseLastPiece(p: string)
    ensures ParseProse(BreakLines(Escape(p))) == Some(Blocks([p], []))
  {
    ParseProseEncoded(p, "");
    assert BreakLines(Escape(p)) + "" == BreakLines(Escape(p));
    var last := Blocks([""], []);
    assert ParseProse("") == Some(last);
    assert last.prose[0] == "" && last.prose[1..] == [];
    assert p + last.prose[0] == p;
    assert [p + last.prose[0]] + last.prose[1..] == [p];
    assert AddProse(p, Some(last)) == Some(Blocks([p], []));
  }

  /** A code block reads back as an empty prose piece, then its code. */
  lemma ParseCodeBlock(c: string, later: string)
    ensures ParseProse(PreOpen + (Escape(c) + (PreClose + later))) ==
            match ParseProse(later)
            case None => None
            case Some(b) => Some(Blocks([""] + b.prose, [c] + b.code))
  {
    ParseCodeEncoded(c, PreClose + later);
    assert (PreClose + later)[|PreClose|..] == later;
    assert (PreOpen + (Escape(c) + (PreClose + later)))[|PreOpen|..] == Escape(c) + (PreClose + later);
    if ParseProse(later).Some? {
      var b := ParseProse(later).value;
      assert ParseCode(PreClose + later) == Some(Blocks(b.prose, [""] + b.code));
      assert c + ([""] + b.code)[0] == c;
      assert [c] + ([""] + b.code)[1..] == [c] + b.code;
    }
  }

  /** One round's output, spelt out in the nesting the reader consumes it in. */
  lemma AssembleUnfold(prose: seq<string>, code: seq<string>, i: nat)
    requires |prose| == |code| + 1 && i <= |code|
    ensures Assemble(EscapeAll(prose), code, i) ==
            if i < |code|
            then BreakLines(Escape(prose[i])) + (PreOpen + (Escape(code[i]) + (PreClose + Assemble(EscapeAll(prose), code, i + 1))))
            else BreakLines(Escape(prose[i]))
  {
    var texts := EscapeAll(prose);
    var line := BreakLines(Escape(prose[i]));
    assert texts[i] == Escape(prose[i]);
    var later := Assemble(texts, code, i + 1);
    assert Assemble(texts, code, i) == Piece(texts, code, i) + later;
    if i < |code| {
      var e := Escape(code[i]);
      assert Piece(texts, code, i) == line + ((PreOpen + e) + PreClose);
      Assoc(line, (PreOpen + e) + PreClose, later);
      Assoc(PreOpen + e, PreClose, later);
      Assoc(PreOpen, e, PreClose + later);
    } else {
      assert later == "";
      assert Piece(texts, code, i) == line + "" == line;
    }
  }

  /** A prose piece followed by a code block reads back as that prose piece
      and that code, prepended to whatever follows. */
  lemma ParsePieces(p: string, c: string, later: string, b: Blocks)
    requires ParseProse(later) == Some(b)
    ensures ParseProse(BreakLines(Escape(p)) + (PreOpen + (Escape(c) + (PreClose + later)))) ==
            Some(Blocks([p] + b.prose, [c] + b.code))
  {
    var rest := PreOpen + (Escape(c) + (PreClose + later));
    ParseCodeBlock(c, later);
    var pieces := [""] + b.prose;
    assert ParseProse(rest) == Some(Blocks(pieces, [c] + b.code));
    ParseProseEncoded(p, rest);
    assert pieces[0] == "" && pieces[1..] == b.prose;
    assert p + "" == p;
  }

  /** The output of the rounds from `i` on reads back as the pieces from `i` on. */
  ghost predicate ReadsBack(prose: seq<string>, code: seq<string>, i: nat)
    requires |prose| == |code| + 1 && i <= |code|
  {
    ParseProse(Assemble(EscapeAll(prose), code, i)) == Some(Blocks(prose[i..], code[i..]))
  }

  /** The last round's output reads back as the last prose piece. */
  lemma AssembleParsesLast(prose: seq<string>, code: seq<string>)
    requires |prose| == |code| + 1
    ensures ReadsBack(prose, code, |code|)
  {
    var i := |code|;
    AssembleUnfold(prose, code, i);
    ParseLastPiece(prose[i]);
    assert prose[i..] == [prose[i]] && code[i..] == [];
  }

  /** If the rounds after `i` read back as their pieces, so do the rounds from `i`. */
  lemma AssembleParsesStep(prose: seq<string>, code: seq<string>, i: nat)
    requires |prose| == |code| + 1 && i < |code|
    requires ReadsBack(prose, code, i + 1)
    ensures ReadsBack(prose, code, i)
  {
    AssembleUnfold(prose, code, i);
    ParsePieces(prose[i], code[i], Assemble(EscapeAll(prose), code, i + 1), Blocks(prose[i + 1..], code[i + 1..]));
    ConsSlice(prose, i);
    ConsSlice(code, i);
  }

  /** The whole output reads back as all the pieces, round by round from the
      last. */
  lemma AssembleParses(prose: seq<string>, code: seq<string>)
    requires |prose| == |code| + 1
    ensures ReadsBack(prose, code, 0)
  {
    var i := |code|;
    AssembleParsesLast(prose, code);
    while i > 0
      invariant 0 <= i <= |code| && ReadsBack(prose, code, i)
    {
      AssembleParsesStep(prose, code, i - 1);
      i := i - 1;
    }
  }

  /** Reading the formatted message back gives exactly its split: the output is
      the prose and code pieces in source order, with every markup character
      escaped, prose newlines as `<br>` and code newlines kept. */
  lemma FormatRoundTrip(text: string)
    ensures ParseProse(Formatted(text)) == Some(SplitFences(text))
  {
    var b := SplitFences(text);
    AssembleParses(b.prose, b.code);
    assert b.prose[0..] == b.prose && b.code[0..] == b.code;
  }

  /** Different messages are formatted differently. */
  lemma FormatInjective(s: string, t: string)
    requires Formatted(s) == Formatted(t)
    ensures s == t
  {
    FormatRoundTrip(s);
    FormatRoundTrip(t);
    ScanRejoin(s, 0);
    ScanRejoin(t, 0);
  }

  /** Without a complete fence pair the message is one prose piece: the output
      is the escaped text with its newlines as `<br>`. */
  lemma FormatWithoutFences(text: string)
    requires !HasFencePair(text)
    ensures Formatted(text) == BreakLines(Escape(text))
  {
    NoPairIsProse(text, 0);
    assert text[0..] == text;
    AssembleUnfold([text], [], 0);
  }

  /** The output is empty exactly when the message is. */
  lemma FormatEmptyIff(text: string)
    ensures Formatted(text) == "" <==> text == ""
  {
    assert !HasFencePair("");
    FormatWithoutFences("");
    if Formatted(text) == "" {
      FormatInjective(text, "");
    }
  }
}

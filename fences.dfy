/**
 * The fence scan behind `re.split(r"```[\s\S]*?```", text)` and
 * `re.findall(r"```([\s\S]*?)```", text)`: both find the same matches, the
 * first giving the prose between them and the second the code inside them.
 *
 * The leftmost match starts at the first "```" at or after the scan position,
 * provided a closing "```" starts at least three characters later; the lazy
 * body makes the closing fence the nearest one. If the first opening fence has
 * no closing fence, no later one has either, so the rest is prose.
 */
module Fences {
  import opened Wrappers
  import opened Seqs

  /** A fence "```" starts at index `i` of `s`. */
  predicate IsFenceAt(s: string, i: int) {
    0 <= i && i + 3 <= |s| && s[i] == '`' && s[i + 1] == '`' && s[i + 2] == '`'
  }

  /** `s` contains a fence somewhere. */
  ghost predicate HasFence(s: string) {
    exists i :: IsFenceAt(s, i)
  }

  /** `s` contains an opening fence followed, without overlap, by a closing one. */
  ghost predicate HasFencePair(s: string) {
    exists i, j :: IsFenceAt(s, i) && i + 3 <= j && IsFenceAt(s, j)
  }

  /** The first fence at or after `from`. */
  function FindFence(s: string, from: nat): (r: Option<nat>)
    ensures r.Some? ==> from <= r.value && IsFenceAt(s, r.value)
    ensures r.Some? ==> forall k :: from <= k < r.value ==> !IsFenceAt(s, k)
    ensures r.None? ==> forall k :: from <= k ==> !IsFenceAt(s, k)
    decreases |s| - from
  {
    if from + 3 > |s| then None
    else if IsFenceAt(s, from) then Some(from)
    else FindFence(s, from + 1)
  }

  /** The pieces of a message: `prose[k]` precedes `code[k]`, and one prose piece
      more than code pieces closes the message. */
  datatype Blocks = Blocks(prose: seq<string>, code: seq<string>)

  /** The split of `s[pos..]`: the result of `re.split` and of `re.findall`. */
  function Scan(s: string, pos: nat): (b: Blocks)
    requires pos <= |s|
    ensures |b.prose| == |b.code| + 1
    decreases |s| - pos
  {
    var open := FindFence(s, pos);
    if open.None? then Blocks([s[pos..]], [])
    else
      var close := FindFence(s, open.value + 3);
      if close.None? then Blocks([s[pos..]], [])
      else
        var rest := Scan(s, close.value + 3);
        Blocks([s[pos..open.value]] + rest.prose, [s[open.value + 3..close.value]] + rest.code)
  }

  /** The split of a whole message. */
  function SplitFences(s: string): (b: Blocks)
    ensures |b.prose| == |b.code| + 1
  {
    Scan(s, 0)
  }

  /** Puts the fences back: the inverse of the split. */
  function Rejoin(b: Blocks): (r: string)
    requires |b.prose| == |b.code| + 1
    ensures |r| >= 6 * |b.code|
    decreases |b.code|
  {
    if b.code == [] then b.prose[0]
    else b.prose[0] + "```" + b.code[0] + "```" + Rejoin(Blocks(b.prose[1..], b.code[1..]))
  }

  /** A piece that a fence follows holds no fence, even together with that
      fence's first two backticks: the fence after it is the leftmost one. */
  ghost predicate EndsBeforeFence(t: string) {
    !HasFence(t + "``")
  }

  /** The shape the split guarantees: no code piece and no prose piece but the
      last contains a fence, even with the first two backticks of the fence that
      follows it (so each fence is the leftmost one), and the last prose piece
      holds no fence pair (an unterminated fence stays in it). */
  ghost predicate WellSplit(b: Blocks) {
    && |b.prose| == |b.code| + 1
    && (forall k :: 0 <= k < |b.code| ==> EndsBeforeFence(b.prose[k]) && EndsBeforeFence(b.code[k]))
    && !HasFencePair(b.prose[|b.code|])
  }

  /** A fence in a slice is a fence in the whole text. */
  lemma FenceInSlice(s: string, a: nat, b: nat, m: int)
    requires a <= b <= |s|
    requires IsFenceAt(s[a..b], m)
    ensures IsFenceAt(s, a + m) && a + m + 3 <= b
  {
    assert s[a..b][m] == s[a + m];
    assert s[a..b][m + 1] == s[a + m + 1];
    assert s[a..b][m + 2] == s[a + m + 2];
  }

  /** The split when the first opening fence has a closing one. */
  lemma ScanUnfold(s: string, pos: nat, i: nat, j: nat)
    requires pos <= |s|
    requires FindFence(s, pos) == Some(i) && FindFence(s, i + 3) == Some(j)
    ensures Scan(s, pos) == Blocks([s[pos..i]] + Scan(s, j + 3).prose, [s[i + 3..j]] + Scan(s, j + 3).code)
  {
  }

  /** A fence is the three backticks. */
  lemma FenceSlice(s: string, i: int)
    requires IsFenceAt(s, i)
    ensures s[i..i + 3] == "```"
  {
  }

  /** The text from `pos` is the piece before the fence pair, the pair with
      its contents, and the rest. */
  lemma RejoinSlices(s: string, pos: nat, i: nat, j: nat)
    requires pos <= i && i + 3 <= j && j + 3 <= |s|
    requires IsFenceAt(s, i) && IsFenceAt(s, j)
    ensures s[pos..] == s[pos..i] + "```" + s[i + 3..j] + "```" + s[j + 3..]
  {
    FenceSlice(s, i);
    FenceSlice(s, j);
    assert s[pos..] == s[pos..i] + s[i..i + 3] + s[i + 3..j] + s[j..j + 3] + s[j + 3..];
  }

  /** The text from `a` up to the first fence at `b`, with that fence's first two
      backticks, holds no fence when no fence starts between `a` and `b`. */
  lemma NoFenceBefore(s: string, a: nat, b: nat)
    requires a <= b && IsFenceAt(s, b)
    requires forall k :: a <= k < b ==> !IsFenceAt(s, k)
    ensures s[a..b] + "``" == s[a..b + 2]
    ensures EndsBeforeFence(s[a..b])
  {
    assert s[a..b + 2] == s[a..b] + s[b..b + 2];
    if HasFence(s[a..b + 2]) {
      var m :| IsFenceAt(s[a..b + 2], m);
      FenceInSlice(s, a, b + 2, m);
      assert false;
    }
  }

  /** Without an opening fence followed by a closing one, `s[pos..]` holds no
      fence pair. */
  lemma NoPairAfter(s: string, pos: nat)
    requires pos <= |s|
    requires FindFence(s, pos).None? || FindFence(s, FindFence(s, pos).value + 3).None?
    ensures !HasFencePair(s[pos..])
  {
    if HasFencePair(s[pos..]) {
      var i, j :| IsFenceAt(s[pos..], i) && i + 3 <= j && IsFenceAt(s[pos..], j);
      FenceInSlice(s, pos, |s|, i);
      FenceInSlice(s, pos, |s|, j);
      assert false;
    }
  }

  /** Without an opening fence followed by a closing one, the rest is the last
      prose piece, and it holds no fence pair. */
  lemma ScanLastPiece(s: string, pos: nat)
    requires pos <= |s|
    requires FindFence(s, pos).None? || FindFence(s, FindFence(s, pos).value + 3).None?
    ensures Scan(s, pos) == Blocks([s[pos..]], [])
    ensures !HasFencePair(s[pos..])
  {
    NoPairAfter(s, pos);
  }

  /** Splitting and rejoining gives the text back. */
  lemma {:induction false} ScanRejoin(s: string, pos: nat)
    requires pos <= |s|
    ensures Rejoin(Scan(s, pos)) == s[pos..]
    decreases |s| - pos
  {
    var open := FindFence(s, pos);
    if open.Some? {
      var i := open.value;
      var close := FindFence(s, i + 3);
      if close.Some? {
        var j := close.value;
        var rest := Scan(s, j + 3);
        ScanRejoin(s, j + 3);
        var b := Scan(s, pos);
        ScanUnfold(s, pos, i, j);
        assert b.prose[1..] == rest.prose && b.code[1..] == rest.code;
        assert Rejoin(b) == s[pos..i] + "```" + s[i + 3..j] + "```" + Rejoin(rest);
        RejoinSlices(s, pos, i, j);
      }
    }
  }

  /** Two fences at or after `pos`, the second three or more characters after
      the first, form a fence pair in `s[pos..]`. */
  lemma FencePairInRest(s: string, pos: nat, i: nat, j: nat)
    requires pos <= i && i + 3 <= j && IsFenceAt(s, i) && IsFenceAt(s, j)
    ensures HasFencePair(s[pos..])
  {
    var t := s[pos..];
    assert t[i - pos] == s[i] && t[i - pos + 1] == s[i + 1] && t[i - pos + 2] == s[i + 2];
    assert t[j - pos] == s[j] && t[j - pos + 1] == s[j + 1] && t[j - pos + 2] == s[j + 2];
    assert IsFenceAt(t, i - pos) && IsFenceAt(t, j - pos);
  }

  /** No fence pair after `pos` means the rest is one prose piece. */
  lemma NoPairIsProse(s: string, pos: nat)
    requires pos <= |s|
    requires !HasFencePair(s[pos..])
    ensures Scan(s, pos) == Blocks([s[pos..]], [])
  {
    var open := FindFence(s, pos);
    if open.Some? && FindFence(s, open.value + 3).Some? {
      FencePairInRest(s, pos, open.value, FindFence(s, open.value + 3).value);
      assert false;
    }
  }

  /** Prepending pieces that hold no fence keeps the split shape. */
  lemma WellSplitCons(p: string, c: string, rest: Blocks)
    requires WellSplit(rest) && EndsBeforeFence(p) && EndsBeforeFence(c)
    ensures WellSplit(Blocks([p] + rest.prose, [c] + rest.code))
  {
    var b := Blocks([p] + rest.prose, [c] + rest.code);
    forall k | 0 <= k < |b.code| ensures EndsBeforeFence(b.prose[k]) && EndsBeforeFence(b.code[k]) {
      if k > 0 {
        assert b.code[k] == rest.code[k - 1] && b.prose[k] == rest.prose[k - 1];
      }
    }
    assert b.prose[|b.code|] == rest.prose[|rest.code|];
  }

  /** The step of `ScanWellSplit`: the pieces before the first fence pair
      hold no fence, so they extend a well-split rest. */
  lemma ScanWellSplitStep(s: string, pos: nat, i: nat, j: nat)
    requires pos <= |s|
    requires FindFence(s, pos) == Some(i) && FindFence(s, i + 3) == Some(j)
    requires WellSplit(Scan(s, j + 3))
    ensures WellSplit(Scan(s, pos))
  {
    ScanUnfold(s, pos, i, j);
    NoFenceBefore(s, pos, i);
    NoFenceBefore(s, i + 3, j);
    WellSplitCons(s[pos..i], s[i + 3..j], Scan(s, j + 3));
  }

  /** The split has the shape `WellSplit` describes. */
  lemma {:induction false} ScanWellSplit(s: string, pos: nat)
    requires pos <= |s|
    ensures WellSplit(Scan(s, pos))
    decreases |s| - pos
  {
    var open := FindFence(s, pos);
    if open.Some? && FindFence(s, open.value + 3).Some? {
      var i := open.value;
      var j := FindFence(s, i + 3).value;
      ScanWellSplit(s, j + 3);
      ScanWellSplitStep(s, pos, i, j);
    } else {
      ScanLastPiece(s, pos);
    }
  }

  /** `FindFence` returns a fence known to have no fence before it. */
  lemma FindFirstFence(s: string, from: nat, i: nat)
    requires from <= i && IsFenceAt(s, i)
    requires forall k :: from <= k < i ==> !IsFenceAt(s, k)
    ensures FindFence(s, from) == Some(i)
  {
  }

  /** A piece that ends before a fence leaves no fence in between. */
  lemma PieceHasNoFence(s: string, a: nat, b: nat)
    requires a <= b && IsFenceAt(s, b) && EndsBeforeFence(s[a..b])
    ensures forall k :: a <= k < b ==> !IsFenceAt(s, k)
  {
    assert s[a..b] + "``" == s[a..b + 2];
    forall k | a <= k < b ensures !IsFenceAt(s, k) {
      if IsFenceAt(s, k) {
        var t := s[a..b + 2];
        assert t[k - a] == s[k] && t[k - a + 1] == s[k + 1] && t[k - a + 2] == s[k + 2];
        assert IsFenceAt(t, k - a);
        assert false;
      }
    }
  }

  /** Reading a rejoined text from a fence on. */
  lemma RejoinParts(s: string, pos: nat, b: Blocks) returns (i: nat, j: nat)
    requires pos <= |s| && |b.prose| == |b.code| + 1 && b.code != []
    requires Rejoin(b) == s[pos..]
    ensures pos <= i && i + 3 <= j && j + 3 <= |s|
    ensures s[pos..i] == b.prose[0] && IsFenceAt(s, i)
    ensures s[i + 3..j] == b.code[0] && IsFenceAt(s, j)
    ensures s[j + 3..] == Rejoin(Blocks(b.prose[1..], b.code[1..]))
  {
    var p, c := b.prose[0], b.code[0];
    var tail := Rejoin(Blocks(b.prose[1..], b.code[1..]));
    var t := s[pos..];
    assert t == p + "```" + c + "```" + tail;
    i := pos + |p|;
    j := i + 3 + |c|;
    assert t[..|p|] == p;
    assert t[|p|..|p| + 3] == "```";
    assert t[|p| + 3..|p| + 3 + |c|] == c;
    assert t[|p| + 3 + |c|..|p| + 6 + |c|] == "```";
    assert t[|p| + 6 + |c|..] == tail;
    assert s[i..i + 3] == t[|p|..|p| + 3];
    assert s[j..j + 3] == t[|p| + 3 + |c|..|p| + 6 + |c|];
  }

  /** Dropping the first pieces keeps the split shape. */
  lemma WellSplitTail(b: Blocks)
    requires WellSplit(b) && b.code != []
    ensures WellSplit(Blocks(b.prose[1..], b.code[1..]))
  {
    var rest := Blocks(b.prose[1..], b.code[1..]);
    forall k | 0 <= k < |rest.code| ensures EndsBeforeFence(rest.prose[k]) && EndsBeforeFence(rest.code[k]) {
      assert rest.prose[k] == b.prose[k + 1] && rest.code[k] == b.code[k + 1];
    }
    assert rest.prose[|rest.code|] == b.prose[|b.code|];
  }

  /** The split is the only decomposition of its shape: blocks that satisfy
      `WellSplit` are the split of the text they rejoin to. */
  lemma {:induction false} SplitUnique(s: string, pos: nat, b: Blocks)
    requires pos <= |s| && WellSplit(b) && Rejoin(b) == s[pos..]
    ensures Scan(s, pos) == b
    decreases |b.code|
  {
    if b.code == [] {
      assert b.prose[0] == s[pos..];
      NoPairIsProse(s, pos);
      assert b.prose == [s[pos..]];
    } else {
      var rest := Blocks(b.prose[1..], b.code[1..]);
      var i, j := RejoinParts(s, pos, b);
      WellSplitTail(b);
      SplitUnique(s, j + 3, rest);
      SplitUniqueStep(s, pos, b, i, j);
    }
  }

  /** The step of `SplitUnique`: the first pieces of well-split blocks sit
      before the first fence pair, so the split starts with them. */
  lemma SplitUniqueStep(s: string, pos: nat, b: Blocks, i: nat, j: nat)
    requires WellSplit(b) && b.code != []
    requires pos <= i && i + 3 <= j && j + 3 <= |s|
    requires s[pos..i] == b.prose[0] && IsFenceAt(s, i)
    requires s[i + 3..j] == b.code[0] && IsFenceAt(s, j)
    requires Scan(s, j + 3) == Blocks(b.prose[1..], b.code[1..])
    ensures Scan(s, pos) == b
  {
    PieceHasNoFence(s, pos, i);
    PieceHasNoFence(s, i + 3, j);
    FindFirstFence(s, pos, i);
    FindFirstFence(s, i + 3, j);
    ScanUnfold(s, pos, i, j);
    ConsHead(b.prose);
    ConsHead(b.code);
  }

  /** A message with a fence pair has at least one code span. */
  lemma PairGivesCode(s: string)
    requires HasFencePair(s)
    ensures |SplitFences(s).code| >= 1
  {
    ScanWellSplit(s, 0);
    ScanRejoin(s, 0);
  }
}

/** The pure part of `processCompleteOrder`: choosing the last ```json block
    of a transcript, the textual repairs applied to it before parsing, and the
    normalisation of the parsed items.  `JSON.parse` is a parameter, a partial
    function from text to `Json` values. */
module JsonBlock {
  import opened Wrappers
  import opened Text

  const OpenFence: string := "```json"
  const Fence: string := "```"

  /** A closing fence "```" starts at index `k`. */
  predicate FenceAt(s: string, k: nat) {
    k + 3 <= |s| && s[k] == '`' && s[k + 1] == '`' && s[k + 2] == '`'
  }

  /** The opening marker "```json" starts at index `k`. */
  predicate OpenFenceAt(s: string, k: nat) {
    k + 7 <= |s| && FenceAt(s, k) && s[k + 3] == 'j' && s[k + 4] == 's' && s[k + 5] == 'o'
    && s[k + 6] == 'n'
  }

  lemma MarkersAt(s: string, k: nat)
    ensures FenceAt(s, k) <==> StartsAt(s, k, Fence)
    ensures OpenFenceAt(s, k) <==> StartsAt(s, k, OpenFence)
  {
    if k + 3 <= |s| {
      assert s[k..k + 3] == [s[k], s[k + 1], s[k + 2]];
    }
    if k + 7 <= |s| {
      assert s[k..k + 7] == [s[k], s[k + 1], s[k + 2], s[k + 3], s[k + 4], s[k + 5], s[k + 6]];
    }
  }

  /** The first index at or after `i` where a closing fence starts. */
  function FenceFrom(s: string, i: nat): (t: Option<nat>)
    requires i <= |s|
    ensures t.Some? ==> i <= t.value && FenceAt(s, t.value)
    ensures forall k | i <= k < (if t.Some? then t.value else |s| + 1) :: !FenceAt(s, k)
    decreases |s| - i
  {
    if FenceAt(s, i) then Some(i)
    else if i == |s| then None
    else FenceFrom(s, i + 1)
  }

  /** No fence can start on a white-space character. */
  lemma NoFenceInSpaceRun(s: string, i: nat)
    requires i <= |s|
    ensures forall k | i <= k < SkipWhile(s, i, IsSpace) :: !FenceAt(s, k)
  {
    SkipWhileRun(s, i, IsSpace);
  }

  /** One match of /```json\s*([\s\S]*?)\s*```/ at index `p`, as the group it
      captures and the index just past it.  The greedy `\s*` after the marker
      and the lazy group end at the first closing fence after the marker, and
      the second `\s*` takes the white space before that fence, so the group
      is the text between the marker and the first fence, trimmed. */
  function BlockAt(s: string, p: nat): (r: Option<(string, nat)>)
    requires p <= |s|
    ensures r.Some? ==> p < r.value.1 <= |s|
  {
    if !OpenFenceAt(s, p) then None
    else
      var q := SkipWhile(s, p + 7, IsSpace);
      match FenceFrom(s, q)
      case None => None
      case Some(t) => Some((TrimEnd(s[q..t]), t + 3))
  }

  /** A block is an opening marker, then the first closing fence after it;
      its group is the text between them, trimmed.  There is none when the
      marker is missing or no fence follows it. */
  lemma BlockAtSound(s: string, p: nat)
    requires p <= |s|
    ensures BlockAt(s, p).None? <==>
      !OpenFenceAt(s, p) || forall k | p + 7 <= k <= |s| :: !FenceAt(s, k)
    ensures BlockAt(s, p).Some? ==>
      var e := BlockAt(s, p).value.1;
      p + 10 <= e && OpenFenceAt(s, p) && FenceAt(s, e - 3)
      && (forall k | p + 7 <= k < e - 3 :: !FenceAt(s, k))
      && BlockAt(s, p).value.0 == Trim(s[p + 7..e - 3])
  {
    BlockAtNone(s, p);
    if BlockAt(s, p).Some? {
      var t := BlockAtSome(s, p);
      assert BlockAt(s, p).value.1 - 3 == t;
    }
  }

  /** The first half of `BlockAtSound`: when there is no block. */
  lemma BlockAtNone(s: string, p: nat)
    requires p <= |s|
    ensures BlockAt(s, p).None? <==>
      !OpenFenceAt(s, p) || forall k | p + 7 <= k <= |s| :: !FenceAt(s, k)
  {
    if OpenFenceAt(s, p) {
      var q := SkipWhile(s, p + 7, IsSpace);
      NoFenceInSpaceRun(s, p + 7);
      if FenceFrom(s, q).None? {
        forall k | p + 7 <= k <= |s| ensures !FenceAt(s, k) {
          if k >= q {
            assert k < |s| + 1;
          }
        }
      }
    }
  }

  /** The second half of `BlockAtSound`: the block that is found, with `t`
      the index of its closing fence. */
  lemma BlockAtSome(s: string, p: nat) returns (t: nat)
    requires p <= |s| && BlockAt(s, p).Some?
    ensures BlockAt(s, p).value.1 == t + 3 && p + 7 <= t && OpenFenceAt(s, p) && FenceAt(s, t)
    ensures forall k | p + 7 <= k < t :: !FenceAt(s, k)
    ensures t <= |s| && BlockAt(s, p).value.0 == Trim(s[p + 7..t])
  {
    var q := SkipWhile(s, p + 7, IsSpace);
    t := FenceFrom(s, q).value;
    assert BlockAt(s, p) == Some((TrimEnd(s[q..t]), t + 3));
    NoFenceInSpaceRun(s, p + 7);
    TrimStartSlice(s, p + 7, t);
  }

  /** A block starts with the marker. */
  lemma BlockAtMarker(s: string, p: nat)
    requires p <= |s| && BlockAt(s, p).Some?
    ensures StartsAt(s, p, OpenFence) && Contains(s, OpenFence)
  {
    MarkersAt(s, p);
  }

  /** The groups of the matches `matchAll` finds from index `i` on: a match
      resumes the scan at its end, a failed position moves on by one. */
  function Blocks(s: string, i: nat): (bs: seq<string>)
    requires i <= |s|
    ensures |bs| <= |s| - i
    decreases |s| - i
  {
    if i == |s| then []
    else
      match BlockAt(s, i)
      case Some((g, e)) => [g] + Blocks(s, e)
      case None => Blocks(s, i + 1)
  }

  /** The text handed to the repairs: the group of the last block when the
      transcript has one, otherwise the whole transcript. */
  function Candidate(text: string): (c: string)
    ensures |Blocks(text, 0)| == 0 ==> c == text
    ensures |Blocks(text, 0)| > 0 ==> c == Blocks(text, 0)[|Blocks(text, 0)| - 1]
  {
    BlocksMarker(text);
    if Contains(text, OpenFence) then
      var bs := Blocks(text, 0);
      if |bs| > 0 then bs[|bs| - 1] else text
    else text
  }

  /** The scan finds nothing exactly when no position starts a block. */
  lemma {:induction false} NoBlocks(s: string, i: nat)
    requires i <= |s|
    ensures Blocks(s, i) == [] <==> forall p | i <= p <= |s| :: BlockAt(s, p).None?
    decreases |s| - i
  {
    if i < |s| {
      NoBlocks(s, i + 1);
    }
  }

  /** The last group the scan finds comes from a block after which the scan
      finds no other. */
  lemma {:induction false} LastBlock(s: string, i: nat) returns (p: nat, e: nat)
    requires i <= |s| && Blocks(s, i) != []
    ensures i <= p < e <= |s|
    ensures BlockAt(s, p) == Some((Blocks(s, i)[|Blocks(s, i)| - 1], e)) && Blocks(s, e) == []
    decreases |s| - i
  {
    assert i < |s|;
    var b := BlockAt(s, i);
    if b.Some? {
      var e' := b.value.1;
      BlocksHit(s, i);
      if Blocks(s, e') == [] {
        p, e := i, e';
      } else {
        p, e := LastBlock(s, e');
        LastOfCons(b.value.0, Blocks(s, e'));
      }
    } else {
      BlocksMiss(s, i);
      p, e := LastBlock(s, i + 1);
    }
  }

  /** The last group of a list with one more group in front. */
  lemma LastOfCons(g: string, rest: seq<string>)
    ensures |[g] + rest| == |rest| + 1
    ensures rest == [] ==> ([g] + rest)[0] == g
    ensures rest != [] ==> ([g] + rest)[|rest|] == rest[|rest| - 1]
  {
  }

  /** A block found at `i` is the first group; the scan resumes at its end. */
  lemma BlocksHit(s: string, i: nat)
    requires i < |s| && BlockAt(s, i).Some?
    ensures Blocks(s, i) == [BlockAt(s, i).value.0] + Blocks(s, BlockAt(s, i).value.1)
  {
  }

  /** No block at `i`: the scan moves on by one. */
  lemma BlocksMiss(s: string, i: nat)
    requires i < |s| && BlockAt(s, i).None?
    ensures Blocks(s, i) == Blocks(s, i + 1)
  {
  }

  /** The `includes('```json')` test in front of the scan changes nothing. */
  lemma BlocksMarker(text: string)
    ensures Blocks(text, 0) != [] ==> Contains(text, OpenFence)
  {
    if Blocks(text, 0) != [] {
      var p, e := BlocksNeedMarker(text);
    }
  }

  /** A transcript in which the scan finds a block contains the marker. */
  lemma BlocksNeedMarker(text: string) returns (p: nat, e: nat)
    requires Blocks(text, 0) != []
    ensures p < e <= |text| && BlockAt(text, p) == Some((Blocks(text, 0)[|Blocks(text, 0)| - 1], e))
    ensures Blocks(text, e) == []
    ensures Contains(text, OpenFence)
  {
    p, e := LastBlock(text, 0);
    BlockAtMarker(text, p);
  }

  /** When the transcript has a block, the candidate is the trimmed text of a
      block that no complete block follows. */
  lemma CandidateIsLastBlock(text: string) returns (p: nat, e: nat)
    requires Blocks(text, 0) != []
    ensures p < e <= |text| && BlockAt(text, p) == Some((Candidate(text), e))
    ensures forall p' | e <= p' <= |text| :: BlockAt(text, p').None?
  {
    p, e := BlocksNeedMarker(text);
    NoBlocks(text, e);
  }

  /** Without the ```json marker the transcript itself is parsed. */
  lemma CandidateWithoutMarker(text: string)
    requires !Contains(text, OpenFence)
    ensures Candidate(text) == text && Blocks(text, 0) == []
  {
    forall p | 0 <= p <= |text| ensures BlockAt(text, p).None? {
      MarkersAt(text, p);
      BlockAtSound(text, p);
    }
    NoBlocks(text, 0);
  }

  /** No block starts in a stretch without backticks. */
  lemma {:induction false} SkipPlainText(s: string, i: nat, n: nat)
    requires i <= n <= |s|
    requires forall k | i <= k < n :: s[k] != '`'
    ensures Blocks(s, i) == Blocks(s, n)
    decreases n - i
  {
    if i < n {
      BlockAtSound(s, i);
      SkipPlainText(s, i + 1, n);
    }
  }

  lemma TrimFramed(body: string)
    requires NoEdgeSpace(body)
    ensures Trim("\n" + body + "\n") == body
  {
    var t := "\n" + body + "\n";
    assert t[1..] == body + "\n";
    if body == [] {
      assert TrimStart(body + "\n") == [];
    } else {
      assert TrimStart(body + "\n") == body + "\n";
      assert (body + "\n")[..|body|] == body;
    }
  }

  /** A ```json block framed by line feeds, at the end of a reply. */
  function Reply(pre: string, body: string): string {
    pre + OpenFence + "\n" + body + "\n" + Fence
  }

  /** The characters of a reply, region by region. */
  lemma ReplyChars(pre: string, body: string)
    ensures |Reply(pre, body)| == |pre| + |body| + 12
    ensures Reply(pre, body)[..|pre|] == pre
    ensures Reply(pre, body)[|pre|..|pre| + 7] == OpenFence
    ensures Reply(pre, body)[|pre| + 7..|pre| + |body| + 9] == "\n" + body + "\n"
    ensures Reply(pre, body)[|pre| + |body| + 9..] == Fence
  {
    var s := Reply(pre, body);
    assert s == pre + OpenFence + ("\n" + body + "\n") + Fence;
  }

  /** The block at the marker runs to the end of the reply and captures the
      body. */
  lemma ReplyBlock(pre: string, body: string)
    requires forall k | 0 <= k < |body| :: body[k] != '`'
    requires NoEdgeSpace(body)
    ensures BlockAt(Reply(pre, body), |pre|) == Some((body, |Reply(pre, body)|))
  {
    var s := Reply(pre, body);
    var n := |pre|;
    ReplyChars(pre, body);
    var mid := s[n + 7..|s| - 3];
    assert mid == "\n" + body + "\n";
    MarkersAt(s, n);
    MarkersAt(s, |s| - 3);
    assert StartsAt(s, n, OpenFence) && StartsAt(s, |s| - 3, Fence);
    forall k | n + 7 <= k < |s| - 3 ensures !FenceAt(s, k) {
      assert s[k] == mid[k - n - 7];
    }
    BlockAtSound(s, n);
    assert FenceAt(s, |s| - 3);
    var e := BlockAt(s, n).value.1;
    assert e == |s|;
    TrimFramed(body);
  }

  /** A reply that ends in a ```json block, with no backticks before it or
      inside it, hands exactly the block's trimmed contents to the parser. */
  lemma ReplyCandidate(pre: string, body: string)
    requires forall k | 0 <= k < |pre| :: pre[k] != '`'
    requires forall k | 0 <= k < |body| :: body[k] != '`'
    requires NoEdgeSpace(body)
    ensures Candidate(Reply(pre, body)) == body
  {
    var s := Reply(pre, body);
    var n := |pre|;
    ReplyChars(pre, body);
    ReplyBlock(pre, body);
    assert Blocks(s, n) == [body] + Blocks(s, |s|);
    assert s[..n] == pre;
    forall k | 0 <= k < n ensures s[k] != '`' {
      assert s[k] == pre[k];
    }
    SkipPlainText(s, 0, n);
    BlockAtMarker(s, n);
  }

  // The repairs applied to the candidate before parsing.

  /** The three `replace` patterns:
      /(\d)\s+(\.\d+)/g with '$1$2', /}\s*,\s*]/g with '}]' and /,\s*}/g
      with '}'. */
  datatype Repair = JoinDecimal | DropCommaBeforeBracket | DropCommaBeforeBrace

  predicate IsSpaceOrComma(c: char) {
    IsSpace(c) || c == ','
  }

  /** What the repairs never touch: everything but white space and commas. */
  function Squeeze(s: string): string {
    Without(s, IsSpaceOrComma)
  }

  /** A match of the repair's pattern at index `i`: the index just past it and
      the text that replaces it.  Each quantifier is greedy and needs no
      backtracking, because the character that follows each white-space run
      in the pattern is not white space.  A replacement drops exactly the
      white space and commas of the matched text. */
  function RepairAt(r: Repair, s: string, i: nat): (m: Option<(nat, string)>)
    requires i <= |s|
    ensures m.Some? ==> i < m.value.0 <= |s| && |m.value.1| < m.value.0 - i
  {
    match r
    case JoinDecimal =>
      if i < |s| && IsDigit(s[i]) then
        var j := SkipWhile(s, i + 1, IsSpace);
        if j > i + 1 && j + 1 < |s| && s[j] == '.' && IsDigit(s[j + 1]) then
          var k := SkipWhile(s, j + 1, IsDigit);
          Some((k, [s[i]] + s[j..k]))
        else None
      else None
    case DropCommaBeforeBracket =>
      if i < |s| && s[i] == '}' then
        var j := SkipWhile(s, i + 1, IsSpace);
        if j < |s| && s[j] == ',' then
          var k := SkipWhile(s, j + 1, IsSpace);
          if k < |s| && s[k] == ']' then Some((k + 1, "}]")) else None
        else None
      else None
    case DropCommaBeforeBrace =>
      if i < |s| && s[i] == ',' then
        var j := SkipWhile(s, i + 1, IsSpace);
        if j < |s| && s[j] == '}' then Some((j + 1, "}")) else None
      else None
  }

  /** A replacement drops exactly the white space and commas of the matched
      text. */
  lemma RepairAtSqueeze(r: Repair, s: string, i: nat)
    requires i <= |s| && RepairAt(r, s, i).Some?
    ensures RepairAt(r, s, i).value.1 == Squeeze(s[i..RepairAt(r, s, i).value.0])
  {
    match r
    case JoinDecimal => JoinDecimalSqueeze(s, i);
    case DropCommaBeforeBracket => CommaBracketSqueeze(s, i);
    case DropCommaBeforeBrace => CommaBraceSqueeze(s, i);
  }

  lemma JoinDecimalSqueeze(s: string, i: nat)
    requires i <= |s| && RepairAt(JoinDecimal, s, i).Some?
    ensures RepairAt(JoinDecimal, s, i).value.1 == Squeeze(s[i..RepairAt(JoinDecimal, s, i).value.0])
  {
    var j := SkipWhile(s, i + 1, IsSpace);
    var k := SkipWhile(s, j + 1, IsDigit);
    SkipWhileRun(s, i + 1, IsSpace);
    SkipWhileRun(s, j + 1, IsDigit);
    DecimalSqueeze(s, i, j, k);
  }

  /** The text of a decimal match: a digit, white space, a point and
      digits. */
  lemma DecimalSqueeze(s: string, i: nat, j: nat, k: nat)
    requires i < j < k <= |s| && IsDigit(s[i]) && s[j] == '.'
    requires forall m | i + 1 <= m < j :: IsSpace(s[m])
    requires forall m | j + 1 <= m < k :: IsDigit(s[m])
    ensures Squeeze(s[i..k]) == [s[i]] + s[j..k]
  {
    WithoutSliceKeep(s, i, k, IsSpaceOrComma);
    WithoutSliceDrop(s, i + 1, j, k, IsSpaceOrComma);
    WithoutSliceNone(s, j, k, IsSpaceOrComma);
  }

  lemma CommaBracketSqueeze(s: string, i: nat)
    requires i <= |s| && RepairAt(DropCommaBeforeBracket, s, i).Some?
    ensures RepairAt(DropCommaBeforeBracket, s, i).value.1
            == Squeeze(s[i..RepairAt(DropCommaBeforeBracket, s, i).value.0])
  {
    var j := SkipWhile(s, i + 1, IsSpace);
    var k := SkipWhile(s, j + 1, IsSpace);
    SkipWhileRun(s, i + 1, IsSpace);
    SkipWhileRun(s, j + 1, IsSpace);
    BracketSqueeze(s, i, j, k);
  }

  /** The text of a `}`, `,`, `]` match with white space between. */
  lemma BracketSqueeze(s: string, i: nat, j: nat, k: nat)
    requires i < j < k < |s| && s[i] == '}' && s[j] == ',' && s[k] == ']'
    requires forall m | i + 1 <= m < j :: IsSpace(s[m])
    requires forall m | j + 1 <= m < k :: IsSpace(s[m])
    ensures Squeeze(s[i..k + 1]) == "}]"
  {
    WithoutSliceKeep(s, i, k + 1, IsSpaceOrComma);
    WithoutSliceDrop(s, i + 1, k, k + 1, IsSpaceOrComma);
    WithoutSliceKeep(s, k, k + 1, IsSpaceOrComma);
    assert s[k + 1..k + 1] == [];
  }

  lemma CommaBraceSqueeze(s: string, i: nat)
    requires i <= |s| && RepairAt(DropCommaBeforeBrace, s, i).Some?
    ensures RepairAt(DropCommaBeforeBrace, s, i).value.1
            == Squeeze(s[i..RepairAt(DropCommaBeforeBrace, s, i).value.0])
  {
    var j := SkipWhile(s, i + 1, IsSpace);
    SkipWhileRun(s, i + 1, IsSpace);
    BraceSqueeze(s, i, j);
  }

  /** The text of a `,`, `}` match with white space between. */
  lemma BraceSqueeze(s: string, i: nat, j: nat)
    requires i < j < |s| && s[i] == ',' && s[j] == '}'
    requires forall m | i + 1 <= m < j :: IsSpace(s[m])
    ensures Squeeze(s[i..j + 1]) == "}"
  {
    WithoutSliceDrop(s, i, j, j + 1, IsSpaceOrComma);
    WithoutSliceKeep(s, j, j + 1, IsSpaceOrComma);
    assert s[j + 1..j + 1] == [];
  }

  /** `s.replace(pattern, replacement)` with the `g` flag, from index `i` on:
      after a match the scan resumes at its end. */
  function ReplaceFrom(r: Repair, s: string, i: nat): string
    requires i <= |s|
    decreases |s| - i
  {
    if i == |s| then []
    else
      match RepairAt(r, s, i)
      case Some((e, t)) => t + ReplaceFrom(r, s, e)
      case None => [s[i]] + ReplaceFrom(r, s, i + 1)
  }

  /** A global `replace`: it never lengthens the text and deletes only
      white space and commas. */
  function ReplaceAll(r: Repair, s: string): (t: string)
    ensures |t| <= |s| && Squeeze(t) == Squeeze(s)
  {
    ReplaceFromLength(r, s, 0);
    ReplaceFromSqueeze(r, s, 0);
    assert s[0..] == s;
    ReplaceFrom(r, s, 0)
  }

  /** A repair never lengthens the text. */
  lemma {:induction false} ReplaceFromLength(r: Repair, s: string, i: nat)
    requires i <= |s|
    ensures |ReplaceFrom(r, s, i)| <= |s| - i
    decreases |s| - i
  {
    if i < |s| {
      match RepairAt(r, s, i)
      case Some((e, t)) => ReplaceFromLength(r, s, e);
      case None => ReplaceFromLength(r, s, i + 1);
    }
  }

  /** A repair only deletes white space and commas. */
  lemma {:induction false} ReplaceFromSqueeze(r: Repair, s: string, i: nat)
    requires i <= |s|
    ensures Squeeze(ReplaceFrom(r, s, i)) == Squeeze(s[i..])
    decreases |s| - i
  {
    if i < |s| {
      assert s[i..] == [s[i]] + s[i + 1..];
      match RepairAt(r, s, i)
      case Some((e, t)) =>
        RepairAtSqueeze(r, s, i);
        ReplaceFromSqueeze(r, s, e);
        WithoutConcat(t, ReplaceFrom(r, s, e), IsSpaceOrComma);
        WithoutOmits(s[i..e], IsSpaceOrComma);
        WithoutNothing(t, IsSpaceOrComma);
        assert s[i..] == s[i..e] + s[e..];
        WithoutConcat(s[i..e], s[e..], IsSpaceOrComma);
      case None =>
        ReplaceFromSqueeze(r, s, i + 1);
        WithoutConcat([s[i]], ReplaceFrom(r, s, i + 1), IsSpaceOrComma);
        WithoutConcat([s[i]], s[i + 1..], IsSpaceOrComma);
    }
  }

  /** Where the pattern matches nowhere, the text is copied as it is. */
  lemma {:induction false} ReplaceFromNoMatch(r: Repair, s: string, i: nat)
    requires i <= |s|
    requires forall k | i <= k <= |s| :: RepairAt(r, s, k).None?
    ensures ReplaceFrom(r, s, i) == s[i..]
    decreases |s| - i
  {
    if i < |s| {
      assert RepairAt(r, s, i).None?;
      ReplaceFromNoMatch(r, s, i + 1);
      assert s[i..] == [s[i]] + s[i + 1..];
    }
  }

  /** A match anywhere from `i` on makes the text strictly shorter. */
  lemma {:induction false} ReplaceFromShorter(r: Repair, s: string, i: nat, k: nat)
    requires i <= k <= |s| && RepairAt(r, s, k).Some?
    ensures |ReplaceFrom(r, s, i)| < |s| - i
    decreases k - i
  {
    if i < |s| {
      match RepairAt(r, s, i)
      case Some((e, t)) => ReplaceFromLength(r, s, e);
      case None => ReplaceFromShorter(r, s, i + 1, k);
    }
  }

  /** A repair leaves the text as it is exactly when its pattern matches
      nowhere; if it changes anything, the text gets shorter. */
  lemma ReplaceFromUnchanged(r: Repair, s: string, i: nat)
    requires i <= |s|
    ensures |ReplaceFrom(r, s, i)| == |s| - i <==> forall k | i <= k <= |s| :: RepairAt(r, s, k).None?
    ensures ReplaceFrom(r, s, i) == s[i..] <==> forall k | i <= k <= |s| :: RepairAt(r, s, k).None?
  {
    if forall k | i <= k <= |s| :: RepairAt(r, s, k).None? {
      ReplaceFromNoMatch(r, s, i);
    } else {
      var k :| i <= k <= |s| && RepairAt(r, s, k).Some?;
      ReplaceFromShorter(r, s, i, k);
    }
  }

  /** The cleanup chain, in the order the code applies it. */
  function Cleanup(s: string): (c: string)
    ensures |c| <= |s| && Squeeze(c) == Squeeze(s)
  {
    var s1 := ReplaceAll(JoinDecimal, s);
    var s2 := ReplaceAll(JoinDecimal, s1);
    var s3 := ReplaceAll(DropCommaBeforeBracket, s2);
    ReplaceAll(DropCommaBeforeBrace, s3)
  }

  /** No pattern of the cleanup matches anywhere in `s`. */
  predicate NeedsNoRepair(s: string) {
    forall k | 0 <= k <= |s| ::
      RepairAt(JoinDecimal, s, k).None? && RepairAt(DropCommaBeforeBracket, s, k).None?
      && RepairAt(DropCommaBeforeBrace, s, k).None?
  }

  lemma ReplaceAllFacts(r: Repair, s: string)
    ensures |ReplaceAll(r, s)| <= |s| && Squeeze(ReplaceAll(r, s)) == Squeeze(s)
    ensures |ReplaceAll(r, s)| == |s| <==> forall k | 0 <= k <= |s| :: RepairAt(r, s, k).None?
    ensures ReplaceAll(r, s) == s <==> forall k | 0 <= k <= |s| :: RepairAt(r, s, k).None?
  {
    ReplaceFromLength(r, s, 0);
    ReplaceFromSqueeze(r, s, 0);
    ReplaceFromUnchanged(r, s, 0);
    assert s[0..] == s;
  }

  /** The cleanup deletes only white space and commas, never lengthens the
      text, and changes it exactly when some repair pattern matches. */
  lemma CleanupFacts(s: string)
    ensures |Cleanup(s)| <= |s|
    ensures Squeeze(Cleanup(s)) == Squeeze(s)
    ensures Cleanup(s) == s <==> NeedsNoRepair(s)
  {
    var s1 := ReplaceAll(JoinDecimal, s);
    var s2 := ReplaceAll(JoinDecimal, s1);
    var s3 := ReplaceAll(DropCommaBeforeBracket, s2);
    ReplaceAllFacts(JoinDecimal, s);
    ReplaceAllFacts(JoinDecimal, s1);
    ReplaceAllFacts(DropCommaBeforeBracket, s2);
    ReplaceAllFacts(DropCommaBeforeBrace, s3);
  }

  /** The repairs named in the code's comments: "2 .50" becomes "2.50",
      "}, ]" becomes "}]" and ", }" becomes "}". */
  lemma RepairExamples()
    ensures ReplaceAll(JoinDecimal, "2 .50") == "2.50"
    ensures ReplaceAll(DropCommaBeforeBracket, "}, ]") == "}]"
    ensures ReplaceAll(DropCommaBeforeBrace, ", }") == "}"
  {
    var a := "2 .50";
    assert SkipWhile(a, 1, IsSpace) == 2 by {
      assert SkipWhile(a, 2, IsSpace) == 2;
    }
    assert SkipWhile(a, 3, IsDigit) == 5 by {
      assert SkipWhile(a, 4, IsDigit) == SkipWhile(a, 5, IsDigit);
    }
    assert [a[0]] + a[2..5] == "2.50";
    assert RepairAt(JoinDecimal, a, 0) == Some((5, "2.50"));
    var b := "}, ]";
    assert SkipWhile(b, 1, IsSpace) == 1;
    assert SkipWhile(b, 2, IsSpace) == 3 by {
      assert SkipWhile(b, 3, IsSpace) == 3;
    }
    assert RepairAt(DropCommaBeforeBracket, b, 0) == Some((4, "}]"));
    var c := ", }";
    assert SkipWhile(c, 1, IsSpace) == 2 by {
      assert SkipWhile(c, 2, IsSpace) == 2;
    }
    assert RepairAt(DropCommaBeforeBrace, c, 0) == Some((3, "}"));
  }

  // The parsed order and the normalisation of its items.

  /** A value `JSON.parse` can return.  An object is its member map: of
      duplicate keys `JSON.parse` keeps the last. */
  datatype Json =
    | JNull
    | JBool(b: bool)
    | JNum(n: real)
    | JStr(s: string)
    | JArr(elems: seq<Json>)
    | JObj(members: map<string, Json>)

  /** JavaScript truthiness (`NaN` cannot come out of `JSON.parse`). */
  predicate Truthy(j: Json) {
    match j
    case JNull => false
    case JBool(b) => b
    case JNum(n) => n != 0.0
    case JStr(s) => s != []
    case JArr(_) => true
    case JObj(_) => true
  }

  /** What a property read `j.key` gives. */
  datatype Access = TypeError | Undefined | Defined(value: Json)

  /** `j.key` for the keys the code reads (`items`, `name`, `quantity`,
      `base_price`, `price`), none of which a built-in prototype defines:
      reading from `null` throws, from an object it gives the member, and from
      any other value `undefined`. */
  function Property(j: Json, key: string): (a: Access)
    ensures a.TypeError? <==> j.JNull?
    ensures a.Defined? <==> j.JObj? && key in j.members
    ensures a.Defined? ==> a.value == j.members[key]
  {
    match j
    case JNull => TypeError
    case JObj(ms) => if key in ms then Defined(ms[key]) else Undefined
    case _ => Undefined
  }

  function AsOption(a: Access): Option<Json> {
    if a.Defined? then Some(a.value) else None
  }

  /** An item as the voice app sends it to the cashier: `None` stands for
      `undefined`. */
  datatype OrderItem = OrderItem(name: string, quantity: Option<Json>, price: Option<Json>)

  /** `name.replace(/\s+/g, ' ').trim()`: the name in canonical form with the
      same non-space characters, in order, and the same words as the trimmed
      name, so one space stays wherever white space separated two words. */
  function NormalizeName(name: string): (n: string)
    ensures IsCanonicalName(n)
    ensures Without(n, IsSpace) == Without(name, IsSpace)
    ensures SplitSpace(n) == SplitSpace(Trim(name))
  {
    var c := CollapseSpace(name);
    CollapseSpaceSound(name);
    TrimSingleSpaced(c);
    CollapseSpaceKeepsWords(name);
    TrimKeepsWords(c);
    TrimCollapse(name);
    CollapseSpaceSplit(Trim(name));
    Trim(c)
  }

  /** Normalising twice is normalising once: a canonical name is left as it
      is. */
  lemma NormalizeNameIdempotent(name: string)
    ensures NormalizeName(NormalizeName(name)) == NormalizeName(name)
  {
    var n := NormalizeName(name);
    CollapseSingleSpaced(n);
    TrimNoEdgeSpace(n);
  }

  /** `item.base_price || item.price`. */
  function ItemPrice(item: Json): (p: Option<Json>)
    requires !item.JNull?
    ensures item.JObj? && "base_price" in item.members && Truthy(item.members["base_price"]) ==>
              p == Some(item.members["base_price"])
    ensures item.JObj? && !("base_price" in item.members && Truthy(item.members["base_price"])) ==>
              p == if "price" in item.members then Some(item.members["price"]) else None
    ensures !item.JObj? ==> p.None?
  {
    var base := Property(item, "base_price");
    if base.Defined? && Truthy(base.value) then Some(base.value) else AsOption(Property(item, "price"))
  }

  /** The `map` callback: `None` when it throws, which happens unless the item
      is an object whose `name` is a string. */
  function NormalizeItem(item: Json): (r: Option<OrderItem>)
    ensures r.Some? <==> item.JObj? && "name" in item.members && item.members["name"].JStr?
    ensures r.Some? ==>
      r.value.name == NormalizeName(item.members["name"].s)
      && r.value.quantity == (if "quantity" in item.members then Some(item.members["quantity"]) else None)
      && r.value.price == ItemPrice(item)
  {
    match Property(item, "name")
    case Defined(JStr(name)) =>
      Some(OrderItem(NormalizeName(name), AsOption(Property(item, "quantity")), ItemPrice(item)))
    case _ => None
  }

  /** `xs.map(f)` with a callback that may throw (`None`): the first item
      that throws aborts the whole map. */
  function MapAll<T, U>(f: T -> Option<U>, xs: seq<T>): Option<seq<U>>
    decreases |xs|
  {
    if xs == [] then Some([])
    else
      match f(xs[0])
      case None => None
      case Some(y) =>
        match MapAll(f, xs[1..])
        case None => None
        case Some(ys) => Some([y] + ys)
  }

  /** The map succeeds exactly when every callback does, and then maps item
      by item. */
  lemma {:induction false} MapAllSound<T, U>(f: T -> Option<U>, xs: seq<T>)
    ensures MapAll(f, xs).Some? <==> forall k | 0 <= k < |xs| :: f(xs[k]).Some?
    ensures MapAll(f, xs).Some? ==>
      |MapAll(f, xs).value| == |xs|
      && forall k | 0 <= k < |xs| :: f(xs[k]) == Some(MapAll(f, xs).value[k])
    decreases |xs|
  {
    if xs != [] {
      MapAllSound(f, xs[1..]);
      assert forall k | 1 <= k < |xs| :: xs[1..][k - 1] == xs[k];
    }
  }

  /** `items.map(...)` with the callback above. */
  function NormalizeItems(items: seq<Json>): Option<seq<OrderItem>> {
    MapAll(NormalizeItem, items)
  }

  /** How far `processCompleteOrder` gets with the parsed text, before the
      socket is consulted. */
  datatype Decoded =
    | Unusable        // JSON.parse or the map threw: give up
    | NoItems         // `items` is missing or falsy: sending will throw
    | Items(items: seq<OrderItem>)

  /** What the code makes of the parsed order: a `null` order or a mapping
      that throws is unusable, a missing or falsy `items` leaves nothing to
      send, otherwise the normalised items. */
  function DecodeOrder(order: Json): (d: Decoded)
    ensures order.JNull? ==> d.Unusable?
    ensures order.JObj? && !("items" in order.members && Truthy(order.members["items"])) ==> d.NoItems?
    ensures d.Items? ==> order.JObj? && "items" in order.members && order.members["items"].JArr?
  {
    match Property(order, "items")
    case TypeError => Unusable
    case Undefined => NoItems
    case Defined(items) =>
      if !Truthy(items) then NoItems
      else if !items.JArr? then Unusable
      else
        match NormalizeItems(items.elems)
        case None => Unusable
        case Some(xs) => Items(xs)
  }

  /** The candidate, cleaned and parsed by `parse` (`None` is a syntax
      error), then decoded. */
  function Decode(text: string, parse: string -> Option<Json>): (d: Decoded)
    ensures parse(Cleanup(Candidate(text))).None? ==> d.Unusable?
    ensures parse(Cleanup(Candidate(text))).Some? ==> d == DecodeOrder(parse(Cleanup(Candidate(text))).value)
  {
    match parse(Cleanup(Candidate(text)))
    case None => Unusable
    case Some(order) => DecodeOrder(order)
  }

  /** Every decoded item carries a canonical name with the words of the
      name of the element it came from. */
  lemma DecodedNamesCanonical(order: Json)
    requires DecodeOrder(order).Items?
    ensures |DecodeOrder(order).items| == |order.members["items"].elems|
    ensures forall k | 0 <= k < |DecodeOrder(order).items| :: IsCanonicalName(DecodeOrder(order).items[k].name)
    ensures forall k | 0 <= k < |DecodeOrder(order).items| ::
      WellNamed(order.members["items"].elems[k])
      && SplitSpace(DecodeOrder(order).items[k].name) == SplitSpace(Trim(order.members["items"].elems[k].members["name"].s))
  {
    var items := DecodeOrder(order).items;
    var elems := order.members["items"].elems;
    MapAllSound(NormalizeItem, elems);
    forall k | 0 <= k < |items|
      ensures IsCanonicalName(items[k].name)
      ensures WellNamed(elems[k]) && SplitSpace(items[k].name) == SplitSpace(Trim(elems[k].members["name"].s))
    {
      assert NormalizeItem(elems[k]) == Some(items[k]);
    }
  }

  /** An object whose `name` is a string: the items the callback accepts. */
  predicate WellNamed(item: Json) {
    item.JObj? && "name" in item.members && item.members["name"].JStr?
  }

  /** Well-named objects are all normalised, one by one. */
  lemma NormalizeWellNamed(elems: seq<Json>)
    requires forall k | 0 <= k < |elems| :: WellNamed(elems[k])
    ensures NormalizeItems(elems).Some? && |NormalizeItems(elems).value| == |elems|
    ensures forall k | 0 <= k < |elems| :: NormalizeItem(elems[k]) == Some(NormalizeItems(elems).value[k])
  {
    forall k | 0 <= k < |elems| ensures NormalizeItem(elems[k]).Some? {
    }
    MapAllSound(NormalizeItem, elems);
  }

  /** An object whose `items` is an array of well-named objects decodes to
      those items, normalised one by one and in order. */
  lemma DecodeItems(members: map<string, Json>, elems: seq<Json>)
    requires "items" in members && members["items"] == JArr(elems)
    requires forall k | 0 <= k < |elems| :: WellNamed(elems[k])
    ensures DecodeOrder(JObj(members)).Items?
    ensures |DecodeOrder(JObj(members)).items| == |elems|
    ensures forall k | 0 <= k < |elems| :: NormalizeItem(elems[k]) == Some(DecodeOrder(JObj(members)).items[k])
  {
    NormalizeWellNamed(elems);
    DecodeArray(members, elems);
  }

  /** An object whose `items` is an array decodes through the mapping of
      that array. */
  lemma DecodeArray(members: map<string, Json>, elems: seq<Json>)
    requires "items" in members && members["items"] == JArr(elems)
    ensures NormalizeItems(elems).None? ==> DecodeOrder(JObj(members)).Unusable?
    ensures NormalizeItems(elems).Some? ==> DecodeOrder(JObj(members)) == Items(NormalizeItems(elems).value)
  {
    assert Property(JObj(members), "items") == Defined(JArr(elems));
  }

  /** One item that is not a well-named object makes the whole order
      unusable. */
  lemma DecodeBadItem(members: map<string, Json>, elems: seq<Json>, k: nat)
    requires "items" in members && members["items"] == JArr(elems)
    requires k < |elems| && !WellNamed(elems[k])
    ensures DecodeOrder(JObj(members)).Unusable?
  {
    MapAllSound(NormalizeItem, elems);
  }

}

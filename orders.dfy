/** Turning a transcription into order lines: the structured
    `- name, quantity, RMprice each` reply of the speech model, or free speech
    matched against the menu read from the prompt. */
module Orders {
  import opened Wrappers
  import opened Text
  import opened Numbers
  import opened Menu

  /** One order line as the parser produces it. */
  datatype Order = Order(item: string, price: real, quantity: int)

  // ---------------------------------------------------------------------
  // Structured replies: /^-\s*([^,]+),\s*(\d+),\s*RM(\d+\.?\d*)\s*each/gm
  // ---------------------------------------------------------------------

  /** The three capture groups of a match and how many characters it spans. */
  datatype ItemMatch = ItemMatch(name: string, quantity: string, price: string, length: nat)

  predicate NotComma(c: char) {
    c != ','
  }

  /** Where the pieces of a structured match start and end: after the dash
      `a` ends the white space, `c` is the first comma, `b`..`d` the
      quantity digits, `f` the `RM`, `f + 2`..`e` the price group and `g` the
      word `each`. */
  datatype ItemBounds = ItemBounds(a: nat, c: nat, b: nat, d: nat, f: nat, e: nat, g: nat)

  /** The dash, then the runs up to the white space's end `a` and up to the
      first comma `c`. */
  predicate NamePart(s: string, bd: ItemBounds) {
    |s| > 0 && s[0] == '-'
    && SkipWhile(s, 1, IsSpace) == bd.a
    && SkipWhile(s, 1, NotComma) == bd.c && 1 < bd.c < |s|
  }

  /** After the comma: white space, then the quantity digits `b`..`d`, then a
      comma. */
  predicate QuantityPart(s: string, bd: ItemBounds) {
    bd.c < |s|
    && SkipWhile(s, bd.c + 1, IsSpace) == bd.b
    && SkipWhile(s, bd.b, IsDigit) == bd.d && bd.b < bd.d < |s| && s[bd.d] == ','
  }

  /** After the second comma: white space, `RM`, the price group
      `f + 2`..`e`, white space, `each`. */
  predicate PricePart(s: string, bd: ItemBounds) {
    bd.d < |s|
    && SkipWhile(s, bd.d + 1, IsSpace) == bd.f
    && StartsAt(s, bd.f, "RM") && bd.f + 2 < |s| && IsDigit(s[bd.f + 2])
    && DecimalGroupEnd(s, bd.f + 2) == bd.e
    && SkipWhile(s, bd.e, IsSpace) == bd.g && StartsAt(s, bd.g, "each")
  }

  /** The positions of a structured match in `s`. */
  predicate IsItemBounds(s: string, bd: ItemBounds) {
    NamePart(s, bd) && QuantityPart(s, bd) && PricePart(s, bd)
  }

  /** The structured-line pattern tried at the start of `s`, up to the
      multiline `^`.  No part of the pattern can give back characters
      usefully: `[^,]+` always runs to the first comma, and the digit and
      space runs are followed by characters they cannot contain. */
  function ItemLineBounds(s: string): Option<ItemBounds> {
    if s == [] || s[0] != '-' then None
    else
      var c := SkipWhile(s, 1, NotComma);
      if c == |s| || c == 1 then None
      else QuantityBounds(s, SkipWhile(s, 1, IsSpace), c)
  }

  /** The quantity and what follows, the name part having ended at `c`. */
  function QuantityBounds(s: string, a: nat, c: nat): Option<ItemBounds>
    requires c < |s|
  {
    var b := SkipWhile(s, c + 1, IsSpace);
    var d := SkipWhile(s, b, IsDigit);
    if d == b || d == |s| || s[d] != ',' then None
    else PriceBounds(s, a, c, b, d)
  }

  /** The price and what follows, the quantity having ended at `d`. */
  function PriceBounds(s: string, a: nat, c: nat, b: nat, d: nat): Option<ItemBounds>
    requires d < |s|
  {
    var f := SkipWhile(s, d + 1, IsSpace);
    if !(StartsAt(s, f, "RM") && f + 2 < |s| && IsDigit(s[f + 2])) then None
    else
      var e := DecimalGroupEnd(s, f + 2);
      var g := SkipWhile(s, e, IsSpace);
      if StartsAt(s, g, "each") then Some(ItemBounds(a, c, b, d, f, e, g)) else None
  }

  lemma PriceBoundsSound(s: string, a: nat, c: nat, b: nat, d: nat)
    requires d < |s|
    ensures var r := PriceBounds(s, a, c, b, d);
            r.Some? ==> r.value.a == a && r.value.c == c && r.value.b == b && r.value.d == d
                        && PricePart(s, r.value)
  {
  }

  lemma QuantityBoundsSound(s: string, a: nat, c: nat)
    requires c < |s|
    ensures var r := QuantityBounds(s, a, c);
            r.Some? ==> r.value.a == a && r.value.c == c && QuantityPart(s, r.value)
                        && PricePart(s, r.value)
  {
    var b := SkipWhile(s, c + 1, IsSpace);
    var d := SkipWhile(s, b, IsDigit);
    if !(d == b || d == |s| || s[d] != ',') {
      assert QuantityBounds(s, a, c) == PriceBounds(s, a, c, b, d);
      PriceBoundsSound(s, a, c, b, d);
    }
  }

  /** Whatever the pattern finds are positions of a structured match. */
  lemma ItemLineBoundsSound(s: string)
    ensures ItemLineBounds(s).Some? ==> IsItemBounds(s, ItemLineBounds(s).value)
  {
    if s != [] && s[0] == '-' {
      var c := SkipWhile(s, 1, NotComma);
      if !(c == |s| || c == 1) {
        QuantityBoundsSound(s, SkipWhile(s, 1, IsSpace), c);
      }
    }
  }

  lemma PriceBoundsUnique(s: string, bd: ItemBounds)
    requires PricePart(s, bd)
    ensures PriceBounds(s, bd.a, bd.c, bd.b, bd.d) == Some(bd)
  {
    assert bd == ItemBounds(bd.a, bd.c, bd.b, bd.d, bd.f, bd.e, bd.g);
  }

  lemma QuantityBoundsUnique(s: string, bd: ItemBounds)
    requires QuantityPart(s, bd) && PricePart(s, bd)
    ensures QuantityBounds(s, bd.a, bd.c) == Some(bd)
  {
    PriceBoundsUnique(s, bd);
  }

  /** The pattern finds exactly the positions `IsItemBounds` describes. */
  lemma ItemBoundsUnique(s: string, bd: ItemBounds)
    requires IsItemBounds(s, bd)
    ensures ItemLineBounds(s) == Some(bd)
  {
    QuantityBoundsUnique(s, bd);
  }

  /** Where the name group starts: after the white space, unless the comma
      follows the white space directly; then `\s*` gives its last space to
      the group. */
  function NameStart(bd: ItemBounds): nat
    requires bd.c > 1
  {
    if bd.a < bd.c then bd.a else bd.c - 1
  }

  /** The name part: the white space ends no later than the first comma,
      the name group has no comma, and white space comes before it. */
  lemma NamePartFacts(s: string, bd: ItemBounds)
    requires NamePart(s, bd)
    ensures 1 <= bd.a <= bd.c && 1 <= NameStart(bd) < bd.c
    ensures forall k | NameStart(bd) <= k < bd.c :: s[k] != ','
    ensures AllSpace(s[1..NameStart(bd)])
  {
    SkipWhileRun(s, 1, IsSpace);
    SkipWhileRun(s, 1, NotComma);
    assert s[bd.c] == ',' && !IsSpace(s[bd.c]);
    var ns := NameStart(bd);
    assert forall k | 0 <= k < ns - 1 :: s[1..ns][k] == s[1 + k];
  }

  /** The quantity part: white space, then the quantity digits. */
  lemma QuantityPartFacts(s: string, bd: ItemBounds)
    requires QuantityPart(s, bd)
    ensures bd.c < bd.b < bd.d && AllSpace(s[bd.c + 1..bd.b]) && AllDigits(s[bd.b..bd.d])
  {
    SpaceRunSlice(s, bd.c + 1);
    DigitRunSlice(s, bd.b);
  }

  /** The price part: white space, `RM`, the price group, white space and
      `each`, in order. */
  lemma PricePartFacts(s: string, bd: ItemBounds)
    requires PricePart(s, bd)
    ensures bd.d < bd.f && bd.f + 2 < bd.e <= bd.g && bd.g + 4 <= |s|
    ensures AllSpace(s[bd.d + 1..bd.f]) && AllSpace(s[bd.e..bd.g])
    ensures s[bd.f..bd.f + 2] == "RM" && s[bd.g..bd.g + 4] == "each"
    ensures IsDecimalGroup(s[bd.f + 2..bd.e])
  {
    SpaceRunSlice(s, bd.d + 1);
    SpaceRunSlice(s, bd.e);
    DecimalGroupEndSound(s, bd.f + 2);
  }

  /** What the positions say about the groups: the name has no comma, the
      quantity is digits, the price is a decimal group, and the pieces come
      in order. */
  lemma ItemBoundsFacts(s: string, bd: ItemBounds)
    requires IsItemBounds(s, bd)
    ensures 1 <= bd.a <= bd.c && 1 <= NameStart(bd) < bd.c < bd.b < bd.d < bd.f
    ensures bd.f + 2 < bd.e <= bd.g && bd.g + 4 <= |s|
    ensures forall k | NameStart(bd) <= k < bd.c :: s[k] != ','
    ensures AllDigits(s[bd.b..bd.d])
    ensures IsDecimalGroup(s[bd.f + 2..bd.e])
  {
    NamePartFacts(s, bd);
    QuantityPartFacts(s, bd);
    PricePartFacts(s, bd);
  }

  /** `/^-\s*([^,]+),\s*(\d+),\s*RM(\d+\.?\d*)\s*each/m` tried at the start
      of `s`, `atLineStart` saying whether `^` holds there. */
  function MatchItemLine(s: string, atLineStart: bool): (m: Option<ItemMatch>)
    ensures m.Some? ==> 0 < m.value.length <= |s|
    ensures m.Some? ==> m.value.name != [] && ',' !in m.value.name
    ensures m.Some? ==> m.value.quantity != [] && AllDigits(m.value.quantity)
    ensures m.Some? ==> IsDecimalGroup(m.value.price)
  {
    if !atLineStart then None
    else
      match ItemLineBounds(s)
      case None => None
      case Some(bd) =>
        ItemLineBoundsSound(s);
        GroupsAtFacts(s, bd);
        Some(GroupsAt(s, bd))
  }

  /** The groups at the positions of a match: a name without commas, the
      quantity digits and the price group, inside `s`. */
  lemma GroupsAtFacts(s: string, bd: ItemBounds)
    requires IsItemBounds(s, bd)
    ensures Ordered(s, bd)
    ensures var m := GroupsAt(s, bd);
            0 < m.length <= |s| && m.name != [] && ',' !in m.name
            && m.quantity != [] && AllDigits(m.quantity) && IsDecimalGroup(m.price)
  {
    ItemBoundsFacts(s, bd);
    var name := s[NameStart(bd)..bd.c];
    assert forall k | 0 <= k < |name| :: name[k] == s[NameStart(bd) + k];
  }

  /** The positions of a match are in order inside `s`. */
  predicate Ordered(s: string, bd: ItemBounds) {
    1 < bd.c && 1 <= NameStart(bd) < bd.c < bd.b < bd.d < bd.f && bd.f + 2 < bd.e <= bd.g
    && bd.g + 4 <= |s|
  }

  /** The groups and the length of the match at the given positions. */
  function GroupsAt(s: string, bd: ItemBounds): ItemMatch
    requires Ordered(s, bd)
  {
    ItemMatch(s[NameStart(bd)..bd.c], s[bd.b..bd.d], s[bd.f + 2..bd.e], bd.g + 4)
  }

  /** The groups at the positions of a match are the same in the text the
      match spans. */
  lemma GroupsAtPrefix(s: string, bd: ItemBounds)
    requires Ordered(s, bd)
    ensures Ordered(s[..bd.g + 4], bd) && GroupsAt(s[..bd.g + 4], bd) == GroupsAt(s, bd)
  {
    var t := s[..bd.g + 4];
    assert t[NameStart(bd)..bd.c] == s[NameStart(bd)..bd.c];
    assert t[bd.b..bd.d] == s[bd.b..bd.d];
    assert t[bd.f + 2..bd.e] == s[bd.f + 2..bd.e];
  }

  /** `text.match(re)` with the `g` and `m` flags: the matched substrings,
      left to right; after a match the search resumes where it ended, and
      after a failure one character further on. */
  function ScanItemLines(s: string, atLineStart: bool): (ws: seq<string>)
    ensures |ws| <= |s|
    decreases |s|
  {
    if s == [] then []
    else
      match MatchItemLine(s, atLineStart)
      case Some(m) => [s[..m.length]] + ScanItemLines(s[m.length..], false)
      case None => ScanItemLines(s[1..], IsLineTerminator(s[0]))
  }

  /** The multiline `^` holds at `p`: the text starts there or a line
      terminator comes before it. */
  predicate LineStartAt(s: string, p: nat)
    requires p <= |s|
  {
    p == 0 || IsLineTerminator(s[p - 1])
  }

  /** A structured match can be found at `p`: a line starts there and the
      pattern matches from it. */
  predicate ItemAt(s: string, p: nat)
    requires p <= |s|
  {
    LineStartAt(s, p) && ItemLineBounds(s[p..]).Some?
  }

  /** Where the structured match found at `p` ends, just after `each`. */
  function ItemEnd(s: string, p: nat): (e: nat)
    requires p <= |s| && ItemAt(s, p)
    ensures p < e <= |s| && s[e - 1] == 'h'
  {
    var t := s[p..];
    var bd := ItemLineBounds(t).value;
    ItemLineBoundsSound(t);
    PricePartFacts(t, bd);
    assert t[bd.g + 3] == 'h';
    p + bd.g + 4
  }

  /** The line starts where the structured pattern matches. */
  function ItemPositions(s: string): set<nat> {
    set p: nat | p < |s| && ItemAt(s, p)
  }

  /** No match `starts[k]`..`ends[k]` has `p` strictly inside it. */
  predicate Uncovered(p: nat, starts: seq<nat>, ends: seq<nat>)
    requires |starts| == |ends|
  {
    forall k | 0 <= k < |starts| :: !(starts[k] < p < ends[k])
  }

  /** The matches `starts[k]`..`ends[k]` of a left-to-right scan over
      `lo`..`hi` that resumes at the end of each match: each starts at a
      candidate position, they come in order without overlapping, and every
      candidate no match covers is a start. */
  predicate Reported(at: set<nat>, lo: nat, hi: nat, starts: seq<nat>, ends: seq<nat>) {
    && |starts| == |ends|
    && (forall k | 0 <= k < |starts| :: lo <= starts[k] < ends[k] && starts[k] in at)
    && (forall k | 0 <= k < |starts| - 1 :: ends[k] <= starts[k + 1])
    && (forall p | p in at && lo <= p < hi && Uncovered(p, starts, ends) :: p in starts)
  }

  /** A candidate after `lo` that the match `lo`..`e` and the later matches
      leave uncovered is past `e`, so the later matches report it. */
  lemma UncoveredCons(lo: nat, e: nat, starts: seq<nat>, ends: seq<nat>, p: nat)
    requires |starts| == |ends| && lo < p && Uncovered(p, [lo] + starts, [e] + ends)
    ensures e <= p && Uncovered(p, starts, ends)
  {
    var ss, es := [lo] + starts, [e] + ends;
    assert !(ss[0] < p < es[0]);
    forall k | 0 <= k < |starts| ensures !(starts[k] < p < ends[k]) {
      assert ss[k + 1] == starts[k] && es[k + 1] == ends[k];
    }
  }

  /** A match at the candidate `lo` ending at `e` goes in front. */
  lemma ReportedCons(at: set<nat>, lo: nat, hi: nat, e: nat, starts: seq<nat>, ends: seq<nat>)
    requires lo in at && lo < e && Reported(at, e, hi, starts, ends)
    ensures Reported(at, lo, hi, [lo] + starts, [e] + ends)
  {
    var ss, es := [lo] + starts, [e] + ends;
    forall k | 0 <= k < |ss| - 1 ensures es[k] <= ss[k + 1] {
      assert ss[k + 1] == starts[k];
      if k > 0 { assert es[k] == ends[k - 1]; }
    }
    forall p | p in at && lo <= p < hi && Uncovered(p, ss, es) ensures p in ss {
      if p != lo {
        UncoveredCons(lo, e, starts, ends, p);
      }
    }
  }

  /** A position that is no candidate adds nothing. */
  lemma ReportedOver(at: set<nat>, lo: nat, hi: nat, starts: seq<nat>, ends: seq<nat>)
    requires lo !in at && Reported(at, lo + 1, hi, starts, ends)
    ensures Reported(at, lo, hi, starts, ends)
  {
  }

  /** `ws` are the strings the scan from `i` reports, `starts[k]`..`ends[k]`
      the matches they are: each a match of the pattern at a line start,
      reported as `Reported` says. */
  predicate ItemStarts(s: string, i: nat, ws: seq<string>, starts: seq<nat>, ends: seq<nat>)
    requires i <= |s|
  {
    && |starts| == |ws| == |ends|
    && (forall k | 0 <= k < |starts| :: FoundAt(s, starts[k], ends[k], ws[k]))
    && Reported(ItemPositions(s), i, |s|, starts, ends)
  }

  /** `w` is the text `s[p..e]` of the match at the line start `p`. */
  predicate FoundAt(s: string, p: nat, e: nat, w: string) {
    p < |s| && ItemAt(s, p) && e == ItemEnd(s, p) && w == s[p..e]
  }

  /** A match at `i`: the scan reports it and resumes at its end, where no
      line starts. */
  lemma ScanMatchStep(s: string, i: nat)
    requires i < |s| && ItemAt(s, i)
    ensures ScanItemLines(s[i..], true) == [s[i..ItemEnd(s, i)]] + ScanItemLines(s[ItemEnd(s, i)..], false)
    ensures !LineStartAt(s, ItemEnd(s, i))
  {
    var t := s[i..];
    var j := ItemEnd(s, i);
    ItemMatchLength(s, i);
    assert t[..j - i] == s[i..j];
    assert t[j - i..] == s[j..];
  }

  /** No match at `i`: the scan moves one character on. */
  lemma ScanSkipStep(s: string, i: nat, atLineStart: bool)
    requires i < |s| && atLineStart == LineStartAt(s, i) && !ItemAt(s, i)
    ensures ScanItemLines(s[i..], atLineStart) == ScanItemLines(s[i + 1..], LineStartAt(s, i + 1))
  {
    assert s[i..][1..] == s[i + 1..];
    assert s[i..][0] == s[i];
  }

  /** The matches found at each start, shifted by one in front. */
  lemma FoundCons(s: string, i: nat, ws: seq<string>, starts: seq<nat>, ends: seq<nat>)
    requires i < |s| && ItemAt(s, i) && |starts| == |ws| == |ends|
    requires forall k | 0 <= k < |starts| :: FoundAt(s, starts[k], ends[k], ws[k])
    ensures var ss, es, w := [i] + starts, [ItemEnd(s, i)] + ends, [s[i..ItemEnd(s, i)]] + ws;
      forall k | 0 <= k < |ss| :: FoundAt(s, ss[k], es[k], w[k])
  {
    var ss, es, w := [i] + starts, [ItemEnd(s, i)] + ends, [s[i..ItemEnd(s, i)]] + ws;
    forall k | 0 <= k < |ss| ensures FoundAt(s, ss[k], es[k], w[k]) {
      if k > 0 { assert ss[k] == starts[k - 1] && es[k] == ends[k - 1] && w[k] == ws[k - 1]; }
    }
  }

  /** A match at `i` is reported in front of what the scan reports from its
      end. */
  lemma ItemStartsHit(s: string, i: nat, starts: seq<nat>, ends: seq<nat>)
    requires i < |s| && ItemAt(s, i)
    requires ItemStarts(s, ItemEnd(s, i), ScanItemLines(s[ItemEnd(s, i)..], false), starts, ends)
    ensures ItemStarts(s, i, ScanItemLines(s[i..], true), [i] + starts, [ItemEnd(s, i)] + ends)
  {
    var j := ItemEnd(s, i);
    ScanMatchStep(s, i);
    FoundCons(s, i, ScanItemLines(s[j..], false), starts, ends);
    ReportedCons(ItemPositions(s), i, |s|, j, starts, ends);
  }

  /** No match at `i`: the scan reports what it reports from `i + 1`. */
  lemma ItemStartsMiss(s: string, i: nat, atLineStart: bool, starts: seq<nat>, ends: seq<nat>)
    requires i < |s| && atLineStart == LineStartAt(s, i) && !ItemAt(s, i)
    requires ItemStarts(s, i + 1, ScanItemLines(s[i + 1..], LineStartAt(s, i + 1)), starts, ends)
    ensures ItemStarts(s, i, ScanItemLines(s[i..], atLineStart), starts, ends)
  {
    ScanSkipStep(s, i, atLineStart);
    ReportedOver(ItemPositions(s), i, |s|, starts, ends);
  }

  /** The scan from `i`, with `^` holding there exactly at a line start,
      reports the matches `ItemStarts` describes. */
  lemma {:induction false} ScanItemStarts(s: string, i: nat, atLineStart: bool) returns (starts: seq<nat>, ends: seq<nat>)
    requires i <= |s| && atLineStart == LineStartAt(s, i)
    ensures ItemStarts(s, i, ScanItemLines(s[i..], atLineStart), starts, ends)
    decreases |s| - i
  {
    if i == |s| {
      assert s[i..] == [];
      starts, ends := [], [];
    } else if ItemAt(s, i) {
      var j := ItemEnd(s, i);
      ScanMatchStep(s, i);
      var rs, re := ScanItemStarts(s, j, false);
      ItemStartsHit(s, i, rs, re);
      starts, ends := [i] + rs, [j] + re;
    } else {
      starts, ends := ScanItemStarts(s, i + 1, LineStartAt(s, i + 1));
      ItemStartsMiss(s, i, atLineStart, starts, ends);
    }
  }

  /** `text.match(re)` with the `g` and `m` flags reports, in text order, the
      match at every line start where the pattern matches and that no earlier
      match covers, and nothing else. */
  lemma ScanItemLineStarts(text: string) returns (starts: seq<nat>, ends: seq<nat>)
    ensures ItemStarts(text, 0, ScanItemLines(text, true), starts, ends)
  {
    assert text[0..] == text;
    starts, ends := ScanItemStarts(text, 0, true);
  }

  /** The text of a match at `p` matches again, without the `g` flag, with
      the groups of the match at `p`. */
  lemma ItemAtRematch(s: string, p: nat)
    requires p < |s| && ItemAt(s, p)
    ensures MatchItemLine(s[p..], true).Some?
    ensures MatchItemLine(s[p..ItemEnd(s, p)], true) == MatchItemLine(s[p..], true)
  {
    var t := s[p..];
    var e := ItemEnd(s, p);
    ItemMatchLength(s, p);
    RematchPrefix(t, true);
    assert t[..e - p] == s[p..e];
  }

  /** The match at `p` spans the text up to `ItemEnd(s, p)`. */
  lemma ItemMatchLength(s: string, p: nat)
    requires p < |s| && ItemAt(s, p)
    ensures MatchItemLine(s[p..], true).Some?
    ensures MatchItemLine(s[p..], true).value.length == ItemEnd(s, p) - p
  {
    var t := s[p..];
    var bd := ItemLineBounds(t).value;
    GroupsAtFacts(t, bd) by { ItemLineBoundsSound(t); }
    assert MatchItemLine(t, true) == Some(GroupsAt(t, bd));
  }

  /** Matched texts that all match again give one order each, in order. */
  lemma {:induction false} OrdersOfRematches(ws: seq<string>)
    requires forall k | 0 <= k < |ws| :: MatchItemLine(ws[k], true).Some?
    ensures |OrdersOfMatches(ws)| == |ws|
    ensures forall k | 0 <= k < |ws| :: OrdersOfMatches(ws)[k] == ItemOrder(MatchItemLine(ws[k], true).value)
  {
    if ws != [] {
      var init := ws[..|ws| - 1];
      OrdersOfRematches(init);
      OrdersOfMatchesStep(ws, |ws| - 1);
      assert ws[..|ws|] == ws;
      forall k | 0 <= k < |ws| ensures OrdersOfMatches(ws)[k] == ItemOrder(MatchItemLine(ws[k], true).value) {
        if k < |ws| - 1 { assert ws[k] == init[k]; }
      }
    }
  }

  /** `parseStructuredResponse(text)` gives one order per line start where
      the structured pattern matches and that no earlier match covers, in
      text order, each from the groups of the match at that line start. */
  lemma StructuredOrdersAt(text: string) returns (starts: seq<nat>, ends: seq<nat>)
    ensures ItemStarts(text, 0, ScanItemLines(text, true), starts, ends)
    ensures |StructuredOrders(text)| == |starts|
    ensures forall k | 0 <= k < |starts| ::
      MatchItemLine(text[starts[k]..], true).Some?
      && StructuredOrders(text)[k] == ItemOrder(MatchItemLine(text[starts[k]..], true).value)
  {
    starts, ends := ScanItemLineStarts(text);
    var ws := ScanItemLines(text, true);
    forall k | 0 <= k < |ws| ensures MatchItemLine(ws[k], true) == MatchItemLine(text[starts[k]..], true)
      && MatchItemLine(ws[k], true).Some?
    {
      ItemAtRematch(text, starts[k]);
    }
    OrdersOfRematches(ws);
  }

  /** The order a structured line describes: the trimmed name, `parseFloat`
      of the price and `parseInt` of the quantity. */
  function ItemOrder(m: ItemMatch): (o: Order)
    requires AllDigits(m.quantity) && IsDecimalGroup(m.price)
    ensures NoEdgeSpace(o.item) && o.price >= 0.0 && o.quantity >= 0
    ensures o.quantity == 0 <==> forall k | 0 <= k < |m.quantity| :: m.quantity[k] == '0'
  {
    Order(Trim(m.name), DecimalGroupValue(m.price), DigitsValue(m.quantity))
  }

  /** Each matched string is matched once more without the `g` flag and, when
      that succeeds, becomes an order. */
  function OrdersOfMatches(ws: seq<string>): (os: seq<Order>)
    ensures |os| <= |ws|
  {
    if ws == [] then []
    else
      var rest := OrdersOfMatches(ws[..|ws| - 1]);
      match MatchItemLine(ws[|ws| - 1], true)
      case Some(m) => rest + [ItemOrder(m)]
      case None => rest
  }

  /** What `parseStructuredResponse` returns for `text`. */
  function StructuredOrders(text: string): (os: seq<Order>)
    ensures |os| == |ScanItemLines(text, true)|
  {
    ScannedLinesRematch(text, true);
    RematchCount(ScanItemLines(text, true));
    OrdersOfMatches(ScanItemLines(text, true))
  }

  /** `parseStructuredResponse(text)` */
  method ParseStructuredResponse(text: string) returns (orders: seq<Order>)
    ensures orders == StructuredOrders(text)
    ensures |orders| == |ScanItemLines(text, true)|
  {
    var itemMatches := ScanItemLines(text, true);
    orders := [];
    var i := 0;
    while i < |itemMatches|
      invariant 0 <= i <= |itemMatches|
      invariant orders == OrdersOfMatches(itemMatches[..i])
    {
      var parts := MatchItemLine(itemMatches[i], true);
      OrdersOfMatchesStep(itemMatches, i);
      if parts.Some? {
        orders := orders + [ItemOrder(parts.value)];
      }
      i := i + 1;
    }
    assert itemMatches[..i] == itemMatches;
  }

  /** A structured match stays one in any prefix that still holds it. */
  lemma ItemBoundsPrefix(s: string, bd: ItemBounds, n: nat)
    requires IsItemBounds(s, bd) && bd.g + 4 <= n <= |s|
    ensures IsItemBounds(s[..n], bd)
  {
    ItemBoundsFacts(s, bd);
    NamePartPrefix(s, bd, n);
    QuantityPartPrefix(s, bd, n);
    PricePartPrefix(s, bd, n);
  }

  lemma NamePartPrefix(s: string, bd: ItemBounds, n: nat)
    requires NamePart(s, bd) && bd.a <= bd.c < n <= |s|
    ensures NamePart(s[..n], bd)
  {
    SkipWhilePrefix(s, 1, IsSpace, n);
    SkipWhilePrefix(s, 1, NotComma, n);
  }

  lemma QuantityPartPrefix(s: string, bd: ItemBounds, n: nat)
    requires QuantityPart(s, bd) && bd.d < n <= |s|
    ensures QuantityPart(s[..n], bd)
  {
    SkipWhilePrefix(s, bd.c + 1, IsSpace, n);
    SkipWhilePrefix(s, bd.b, IsDigit, n);
  }

  lemma PricePartPrefix(s: string, bd: ItemBounds, n: nat)
    requires PricePart(s, bd) && bd.g + 4 <= n <= |s|
    ensures PricePart(s[..n], bd)
  {
    var t := s[..n];
    SkipWhilePrefix(s, bd.d + 1, IsSpace, n);
    assert t[bd.f..bd.f + 2] == s[bd.f..bd.f + 2];
    DecimalGroupEndPrefix(s, bd.f + 2, n);
    SkipWhilePrefix(s, bd.e, IsSpace, n);
    assert t[bd.g..bd.g + 4] == s[bd.g..bd.g + 4];
  }

  /** The groups a match takes, given its positions. */
  lemma MatchItemLineOf(s: string, bd: ItemBounds)
    requires ItemLineBounds(s) == Some(bd)
    ensures Ordered(s, bd) && MatchItemLine(s, true) == Some(GroupsAt(s, bd))
  {
    ItemLineBoundsSound(s);
    ItemBoundsFacts(s, bd);
  }

  /** The positions of a match are the positions of the match in the text
      it spans. */
  lemma PrefixBounds(s: string, bd: ItemBounds)
    requires ItemLineBounds(s) == Some(bd)
    ensures bd.g + 4 <= |s| && ItemLineBounds(s[..bd.g + 4]) == Some(bd)
  {
    ItemLineBoundsSound(s);
    ItemBoundsFacts(s, bd);
    ItemBoundsPrefix(s, bd, bd.g + 4);
    ItemBoundsUnique(s[..bd.g + 4], bd);
  }

  /** A match is also a match of its own text: the second, non-global match
      in `parseStructuredResponse` finds the same groups. */
  lemma RematchPrefix(s: string, atLineStart: bool)
    requires MatchItemLine(s, atLineStart).Some?
    ensures MatchItemLine(s[..MatchItemLine(s, atLineStart).value.length], true)
            == MatchItemLine(s, atLineStart)
  {
    assert atLineStart;
    PrefixMatch(s, ItemLineBounds(s).value);
  }

  /** The groups of a match are the same slices of the text it spans. */
  lemma PrefixMatch(s: string, bd: ItemBounds)
    requires ItemLineBounds(s) == Some(bd)
    ensures MatchItemLine(s, true).Some?
    ensures var n := MatchItemLine(s, true).value.length;
            n <= |s| && MatchItemLine(s[..n], true) == MatchItemLine(s, true)
  {
    var n := bd.g + 4;
    assert Ordered(s, bd) && MatchItemLine(s, true) == Some(GroupsAt(s, bd)) by {
      MatchItemLineOf(s, bd);
    }
    assert GroupsAt(s, bd).length == n;
    assert n <= |s| && ItemLineBounds(s[..n]) == Some(bd) by {
      PrefixBounds(s, bd);
    }
    assert MatchItemLine(s[..n], true) == Some(GroupsAt(s[..n], bd)) by {
      MatchItemLineOf(s[..n], bd);
    }
    GroupsAtPrefix(s, bd);
  }

  /** Every string the global scan reports matches again, over its whole
      length. */
  lemma {:induction false} ScannedLinesRematch(s: string, atLineStart: bool)
    ensures forall k | 0 <= k < |ScanItemLines(s, atLineStart)| ::
              MatchItemLine(ScanItemLines(s, atLineStart)[k], true).Some?
    decreases |s|
  {
    if s != [] {
      match MatchItemLine(s, atLineStart)
      case Some(m) =>
        RematchPrefix(s, atLineStart);
        ScannedLinesRematch(s[m.length..], false);
      case None =>
        ScannedLinesRematch(s[1..], IsLineTerminator(s[0]));
    }
  }

  /** When every string matches, each one gives exactly one order. */
  lemma {:induction false} RematchCount(ws: seq<string>)
    requires forall k | 0 <= k < |ws| :: MatchItemLine(ws[k], true).Some?
    ensures |OrdersOfMatches(ws)| == |ws|
  {
    if ws != [] {
      RematchCount(ws[..|ws| - 1]);
    }
  }

  /** A text cut at the given positions, with the fixed characters of the
      item pattern in place, is the concatenation of its pieces. */
  lemma PiecesConcat(s: string, ns: nat, c: nat, b: nat, d: nat, f: nat, e: nat, g: nat)
    requires 1 <= ns <= c < b <= d < f && f + 2 <= e <= g && g + 4 <= |s|
    requires s[0] == '-' && s[c] == ',' && s[d] == ','
    requires s[f..f + 2] == "RM" && s[g..g + 4] == "each"
    ensures s[..g + 4] == "-" + s[1..ns] + s[ns..c] + "," + s[c + 1..b] + s[b..d]
                          + "," + s[d + 1..f] + "RM" + s[f + 2..e] + s[e..g] + "each"
  {
    assert s[0..1] == "-";
    SliceConcat(s, 0, 1, ns);
    SliceConcat(s, 0, ns, c);
    assert s[c..c + 1] == ",";
    SliceConcat(s, 0, c, c + 1);
    SliceConcat(s, 0, c + 1, b);
    SliceConcat(s, 0, b, d);
    assert s[d..d + 1] == ",";
    SliceConcat(s, 0, d, d + 1);
    SliceConcat(s, 0, d + 1, f);
    SliceConcat(s, 0, f, f + 2);
    SliceConcat(s, 0, f + 2, e);
    SliceConcat(s, 0, e, g);
    SliceConcat(s, 0, g, g + 4);
    assert s[..g + 4] == s[0..g + 4];
  }

  /** A dash, the white space `x`, the name, a comma, the white space `y`,
      the quantity, a comma, the white space `z`, `RM`, the price, the white
      space `w` and `each`. */
  function ItemLineText(x: string, name: string, y: string, quantity: string, z: string,
                        price: string, w: string): string {
    "-" + x + name + "," + y + quantity + "," + z + "RM" + price + w + "each"
  }

  /** `t` is an item line with the given groups and white space between the
      fixed parts. */
  ghost predicate ItemLineShape(t: string, name: string, quantity: string, price: string) {
    exists x, y, z, w ::
      t == ItemLineText(x, name, y, quantity, z, price, w)
      && AllSpace(x) && AllSpace(y) && AllSpace(z) && AllSpace(w)
  }

  /** The facts about the positions of a match that fix its shape. */
  predicate ShapeFacts(s: string, bd: ItemBounds) {
    Ordered(s, bd)
    && s[0] == '-' && s[bd.c] == ',' && s[bd.d] == ','
    && s[bd.f..bd.f + 2] == "RM" && s[bd.g..bd.g + 4] == "each"
    && AllSpace(s[1..NameStart(bd)]) && AllSpace(s[bd.c + 1..bd.b])
    && AllSpace(s[bd.d + 1..bd.f]) && AllSpace(s[bd.e..bd.g])
  }

  lemma BoundsShapeFacts(s: string, bd: ItemBounds)
    requires IsItemBounds(s, bd)
    ensures ShapeFacts(s, bd)
  {
    NamePartFacts(s, bd);
    QuantityPartFacts(s, bd);
    PricePartFacts(s, bd);
  }

  /** The text the positions of a match cover, cut into its pieces. */
  lemma ShapeText(s: string, bd: ItemBounds)
    requires ShapeFacts(s, bd)
    ensures s[..bd.g + 4] == ItemLineText(s[1..NameStart(bd)], s[NameStart(bd)..bd.c],
                                          s[bd.c + 1..bd.b], s[bd.b..bd.d], s[bd.d + 1..bd.f],
                                          s[bd.f + 2..bd.e], s[bd.e..bd.g])
  {
    PiecesConcat(s, NameStart(bd), bd.c, bd.b, bd.d, bd.f, bd.e, bd.g);
  }

  /** The text the positions of a match cover has the item line's shape,
      with the groups at those positions. */
  lemma BoundsShape(s: string, bd: ItemBounds)
    requires IsItemBounds(s, bd)
    ensures Ordered(s, bd)
    ensures ItemLineShape(s[..bd.g + 4], s[NameStart(bd)..bd.c], s[bd.b..bd.d], s[bd.f + 2..bd.e])
  {
    BoundsShapeFacts(s, bd);
    ShapeText(s, bd);
    var x, y, z, w := s[1..NameStart(bd)], s[bd.c + 1..bd.b], s[bd.d + 1..bd.f], s[bd.e..bd.g];
    assert AllSpace(x) && AllSpace(y) && AllSpace(z) && AllSpace(w);
    assert s[..bd.g + 4] == ItemLineText(x, s[NameStart(bd)..bd.c], y, s[bd.b..bd.d], z, s[bd.f + 2..bd.e], w);
  }

  /** The shape of what a structured match spans: a dash, white space, the
      name group, a comma, white space, the quantity digits, a comma, white
      space, `RM`, the price group, white space and `each`. */
  lemma MatchItemLineShape(s: string, atLineStart: bool)
    requires MatchItemLine(s, atLineStart).Some?
    ensures var m := MatchItemLine(s, atLineStart).value;
            atLineStart && ItemLineShape(s[..m.length], m.name, m.quantity, m.price)
  {
    assert atLineStart;
    var bd := ItemLineBounds(s).value;
    MatchItemLineOf(s, bd);
    var m := GroupsAt(s, bd);
    assert MatchItemLine(s, atLineStart) == Some(m);
    assert m == ItemMatch(s[NameStart(bd)..bd.c], s[bd.b..bd.d], s[bd.f + 2..bd.e], bd.g + 4);
    ItemLineBoundsSound(s);
    BoundsShape(s, bd);
  }

  // ---------------------------------------------------------------------
  // The structured round trip
  // ---------------------------------------------------------------------

  /** The fields of one line as the speech model is asked to write it. */
  datatype ItemLine = ItemLine(name: string, quantity: string, price: string)

  /** A line the structured pattern is meant to read back: a trimmed name
      without commas, a digit string and a decimal number. */
  predicate WellFormedItemLine(l: ItemLine) {
    l.name != [] && ',' !in l.name && NoEdgeSpace(l.name)
    && l.quantity != [] && AllDigits(l.quantity) && IsDecimalGroup(l.price)
  }

  /** `- Teh ais, 1, RM3.00 each` */
  function RenderItemLine(l: ItemLine): string {
    "- " + l.name + ", " + l.quantity + ", RM" + l.price + " each"
  }

  function RenderItemLines(ls: seq<ItemLine>): seq<string> {
    seq(|ls|, k requires 0 <= k < |ls| => RenderItemLine(ls[k]))
  }

  /** The order a well-formed line is meant to stand for. */
  function IntendedOrder(l: ItemLine): Order
    requires WellFormedItemLine(l)
  {
    Order(l.name, DecimalGroupValue(l.price), DigitsValue(l.quantity))
  }

  /** Where the pieces of a rendered line sit. */
  function RenderedBounds(l: ItemLine): ItemBounds {
    var N, Q, P := |l.name|, |l.quantity|, |l.price|;
    ItemBounds(2, 2 + N, 4 + N, 4 + N + Q, 6 + N + Q, 8 + N + Q + P, 9 + N + Q + P)
  }

  /** `s` starts with the line `l` written at the positions `RenderedBounds(l)`. */
  predicate RenderedLayout(s: string, l: ItemLine) {
    var bd := RenderedBounds(l);
    bd.g + 4 <= |s|
    && s[0] == '-' && s[1] == ' ' && s[bd.a..bd.c] == l.name
    && s[bd.c] == ',' && s[bd.c + 1] == ' ' && s[bd.b..bd.d] == l.quantity
    && s[bd.d] == ',' && s[bd.d + 1] == ' ' && s[bd.f..bd.f + 2] == "RM"
    && s[bd.f + 2..bd.e] == l.price && s[bd.e] == ' ' && s[bd.g..bd.g + 4] == "each"
  }

  /** A rendered line, followed by anything, has that layout. */
  lemma RenderedLayoutHolds(l: ItemLine, rest: string)
    ensures |RenderItemLine(l)| == RenderedBounds(l).g + 4
    ensures RenderedLayout(RenderItemLine(l) + rest, l)
  {
    RenderedHead(l, rest);
    RenderedTail(l, rest);
  }

  /** The dash, the name, the quantity and the comma after it. */
  lemma RenderedHead(l: ItemLine, rest: string)
    ensures var s, bd := RenderItemLine(l) + rest, RenderedBounds(l);
            |RenderItemLine(l)| == bd.g + 4 && bd.g + 4 <= |s|
            && s[0] == '-' && s[1] == ' ' && s[bd.a..bd.c] == l.name
            && s[bd.c] == ',' && s[bd.c + 1] == ' ' && s[bd.b..bd.d] == l.quantity
  {
    var s := RenderItemLine(l) + rest;
    var n, q := l.name, l.quantity;
    var N, Q := |n|, |q|;
    var t := ", RM" + l.price + " each" + rest;
    assert s == "- " + n + ", " + q + t;
    assert s[2..2 + N] == n;
    assert s[2 + N..4 + N] == ", ";
    assert s[4 + N..4 + N + Q] == q;
  }

  /** From the second comma on: `, RM`, the price, ` each`. */
  lemma RenderedTail(l: ItemLine, rest: string)
    ensures var s, bd := RenderItemLine(l) + rest, RenderedBounds(l);
            bd.g + 4 <= |s|
            && s[bd.d] == ',' && s[bd.d + 1] == ' ' && s[bd.f..bd.f + 2] == "RM"
            && s[bd.f + 2..bd.e] == l.price && s[bd.e] == ' ' && s[bd.g..bd.g + 4] == "each"
  {
    var s := RenderItemLine(l) + rest;
    var h := "- " + l.name + ", " + l.quantity;
    var H, P := |h|, |l.price|;
    assert s == h + ", RM" + l.price + " each" + rest;
    assert s[H..H + 4] == ", RM";
    assert s[H + 4..H + 4 + P] == l.price;
    assert s[H + 4 + P..H + 9 + P] == " each";
  }

  /** The dash, the space and the name of a rendered line. */
  lemma LayoutNamePart(s: string, l: ItemLine)
    requires RenderedLayout(s, l) && WellFormedItemLine(l)
    ensures NamePart(s, RenderedBounds(l))
  {
    var bd := RenderedBounds(l);
    assert s[2] == s[bd.a..bd.c][0] == l.name[0];
    SkipWhileUnique(s, 1, IsSpace, 2);
    assert forall k | 1 <= k < bd.c :: NotComma(s[k]) by {
      forall k | 1 <= k < bd.c
        ensures NotComma(s[k])
      {
        if k > 1 {
          assert s[k] == s[bd.a..bd.c][k - 2] == l.name[k - 2];
        }
      }
    }
    SkipWhileUnique(s, 1, NotComma, bd.c);
  }

  /** The comma, the space and the quantity of a rendered line. */
  lemma LayoutQuantityPart(s: string, l: ItemLine)
    requires RenderedLayout(s, l) && WellFormedItemLine(l)
    ensures QuantityPart(s, RenderedBounds(l))
  {
    var bd := RenderedBounds(l);
    assert bd.b == bd.c + 2 && bd.d == bd.b + |l.quantity|;
    assert IsDigit(s[bd.b]) by {
      assert s[bd.b] == s[bd.b..bd.d][0] == l.quantity[0];
    }
    SingleSpaceRun(s, bd.c + 1);
    DigitRunOf(s, bd.b, l.quantity);
  }

  /** The comma, the price and the word `each` of a rendered line. */
  lemma LayoutPricePart(s: string, l: ItemLine)
    requires RenderedLayout(s, l) && WellFormedItemLine(l)
    ensures PricePart(s, RenderedBounds(l))
  {
    var bd := RenderedBounds(l);
    assert bd.f == bd.d + 2 && bd.g == bd.e + 1;
    assert s[bd.f] == s[bd.f..bd.f + 2][0] == 'R';
    assert s[bd.g] == s[bd.g..bd.g + 4][0] == 'e';
    SingleSpaceRun(s, bd.d + 1);
    GroupBeforeSpace(s, bd.f + 2, bd.e, l.price);
    SingleSpaceRun(s, bd.e);
  }

  /** A decimal group followed by white space is what the greedy group
      takes. */
  lemma GroupBeforeSpace(s: string, r: nat, e: nat, g: string)
    requires r <= e < |s| && s[r..e] == g && IsDecimalGroup(g) && s[e] == ' '
    ensures IsDigit(s[r]) && DecimalGroupEnd(s, r) == e
  {
    assert StartsAt(s, r, g);
    DecimalGroupEndOf(s, r, g);
  }

  /** A rendered line has the bounds it was written with. */
  lemma RenderedIsItemBounds(l: ItemLine, rest: string)
    requires WellFormedItemLine(l)
    ensures IsItemBounds(RenderItemLine(l) + rest, RenderedBounds(l))
  {
    var s := RenderItemLine(l) + rest;
    RenderedLayoutHolds(l, rest);
    LayoutNamePart(s, l);
    LayoutQuantityPart(s, l);
    LayoutPricePart(s, l);
  }

  /** The pattern finds a rendered line at the bounds it was written with. */
  lemma RenderedFound(l: ItemLine, rest: string)
    requires WellFormedItemLine(l)
    ensures ItemLineBounds(RenderItemLine(l) + rest) == Some(RenderedBounds(l))
  {
    RenderedIsItemBounds(l, rest);
    ItemBoundsUnique(RenderItemLine(l) + rest, RenderedBounds(l));
  }

  /** A rendered line at a line start matches over exactly its own length,
      with the line's fields as the groups. */
  lemma MatchRendered(l: ItemLine, rest: string)
    requires WellFormedItemLine(l)
    ensures MatchItemLine(RenderItemLine(l) + rest, true)
            == Some(ItemMatch(l.name, l.quantity, l.price, |RenderItemLine(l)|))
  {
    var s, bd := RenderItemLine(l) + rest, RenderedBounds(l);
    assert MatchItemLine(s, true) == Some(GroupsAt(s, bd)) by {
      RenderedFound(l, rest);
      MatchItemLineOf(s, bd);
    }
    RenderedGroups(l, rest);
  }

  /** The groups at the rendered positions are the rendered name, quantity
      and price, and the match spans the rendered line. */
  lemma RenderedGroups(l: ItemLine, rest: string)
    requires WellFormedItemLine(l)
    ensures Ordered(RenderItemLine(l) + rest, RenderedBounds(l))
    ensures GroupsAt(RenderItemLine(l) + rest, RenderedBounds(l))
            == ItemMatch(l.name, l.quantity, l.price, |RenderItemLine(l)|)
  {
    RenderedLayoutHolds(l, rest);
    assert NameStart(RenderedBounds(l)) == 2;
  }

  /** The global scan reports a rendered line at a line start whole, and
      goes on after it. */
  lemma ScanRenderedHead(l: ItemLine, rest: string)
    requires WellFormedItemLine(l)
    ensures ScanItemLines(RenderItemLine(l) + rest, true)
            == [RenderItemLine(l)] + ScanItemLines(rest, false)
  {
    var r := RenderItemLine(l);
    var s := r + rest;
    MatchRendered(l, rest);
    assert s[..|r|] == r;
    assert s[|r|..] == rest;
  }

  /** After a line feed the scan is at a line start again. */
  lemma ScanAfterLineFeed(t: string)
    ensures ScanItemLines("\n" + t, false) == ScanItemLines(t, true)
  {
    assert ("\n" + t)[1..] == t;
  }

  /** How the global scan walks over rendered lines joined by line feeds:
      it reports each line, whole, in order. */
  /** Rendering a list of lines renders its head, then its tail. */
  lemma RenderItemLinesTail(ls: seq<ItemLine>)
    requires |ls| >= 1
    ensures RenderItemLines(ls) == [RenderItemLine(ls[0])] + RenderItemLines(ls[1..])
  {
    var a := RenderItemLines(ls);
    var b := [RenderItemLine(ls[0])] + RenderItemLines(ls[1..]);
    assert |a| == |b|;
    forall k | 0 <= k < |a| ensures a[k] == b[k] {
      if k > 0 {
        assert ls[1..][k - 1] == ls[k];
      }
    }
  }

  lemma {:induction false} ScanRendered(ls: seq<ItemLine>)
    requires |ls| >= 1
    requires forall k | 0 <= k < |ls| :: WellFormedItemLine(ls[k])
    ensures ScanItemLines(Join(RenderItemLines(ls), "\n"), true) == RenderItemLines(ls)
  {
    var r := RenderItemLine(ls[0]);
    var rs := RenderItemLines(ls);
    RenderItemLinesTail(ls);
    if |ls| == 1 {
      ScanRenderedHead(ls[0], "");
      assert r + "" == r;
    } else {
      var rest := RenderItemLines(ls[1..]);
      var tail := Join(rest, "\n");
      JoinCons(rs, "\n");
      assert rs[1..] == rest;
      ScanRenderedHead(ls[0], "\n" + tail);
      ScanAfterLineFeed(tail);
      ScanRendered(ls[1..]);
    }
  }

  /** The orders a list of well-formed lines stands for, in order. */
  function IntendedOrders(ls: seq<ItemLine>): (os: seq<Order>)
    requires forall k | 0 <= k < |ls| :: WellFormedItemLine(ls[k])
    ensures |os| == |ls| && forall k | 0 <= k < |ls| :: os[k] == IntendedOrder(ls[k])
  {
    seq(|ls|, k requires 0 <= k < |ls| => IntendedOrder(ls[k]))
  }

  /** The second match of one rendered line gives its intended order. */
  lemma RematchRendered(l: ItemLine)
    requires WellFormedItemLine(l)
    ensures MatchItemLine(RenderItemLine(l), true).Some?
    ensures ItemOrder(MatchItemLine(RenderItemLine(l), true).value) == IntendedOrder(l)
  {
    MatchRendered(l, "");
    assert RenderItemLine(l) + "" == RenderItemLine(l);
    TrimNoEdgeSpace(l.name);
  }

  /** One more matched string adds its order, if it matches again. */
  lemma OrdersOfMatchesStep(ws: seq<string>, i: nat)
    requires i < |ws|
    ensures MatchItemLine(ws[i], true).Some? ==>
      OrdersOfMatches(ws[..i + 1]) == OrdersOfMatches(ws[..i]) + [ItemOrder(MatchItemLine(ws[i], true).value)]
    ensures MatchItemLine(ws[i], true).None? ==> OrdersOfMatches(ws[..i + 1]) == OrdersOfMatches(ws[..i])
  {
    var p := ws[..i + 1];
    assert p != [] && p[|p| - 1] == ws[i] && p[..|p| - 1] == ws[..i];
  }

  lemma OrdersOfMatchesSnoc(ws: seq<string>, w: string)
    requires MatchItemLine(w, true).Some?
    ensures OrdersOfMatches(ws + [w]) == OrdersOfMatches(ws) + [ItemOrder(MatchItemLine(w, true).value)]
  {
    var all := ws + [w];
    assert all != [] && all[|all| - 1] == w && all[..|all| - 1] == ws;
  }

  lemma IntendedOrdersSnoc(ls: seq<ItemLine>)
    requires ls != [] && forall k | 0 <= k < |ls| :: WellFormedItemLine(ls[k])
    ensures IntendedOrders(ls) == IntendedOrders(ls[..|ls| - 1]) + [IntendedOrder(ls[|ls| - 1])]
  {
  }

  lemma RenderItemLinesSnoc(ls: seq<ItemLine>)
    requires ls != []
    ensures RenderItemLines(ls) == RenderItemLines(ls[..|ls| - 1]) + [RenderItemLine(ls[|ls| - 1])]
  {
  }

  /** Rendered lines give back their orders from the list of rendered strings. */
  lemma {:induction false} OrdersOfRendered(ls: seq<ItemLine>)
    requires forall k | 0 <= k < |ls| :: WellFormedItemLine(ls[k])
    ensures OrdersOfMatches(RenderItemLines(ls)) == IntendedOrders(ls)
  {
    if ls != [] {
      var init, l := ls[..|ls| - 1], ls[|ls| - 1];
      OrdersOfRendered(init);
      RenderItemLinesSnoc(ls);
      RematchRendered(l);
      OrdersOfMatchesSnoc(RenderItemLines(init), RenderItemLine(l));
      IntendedOrdersSnoc(ls);
    }
  }

  /** Structured parsing reads back what the structured format writes: lines
      rendered as `- name, quantity, RMprice each` and joined by line feeds
      give their own orders, in order. */
  lemma StructuredRoundTrip(ls: seq<ItemLine>)
    requires |ls| >= 1
    requires forall k | 0 <= k < |ls| :: WellFormedItemLine(ls[k])
    ensures StructuredOrders(Join(RenderItemLines(ls), "\n")) == IntendedOrders(ls)
  {
    ScanRendered(ls);
    OrdersOfRendered(ls);
  }

  // ---------------------------------------------------------------------
  // Free speech: quantities
  // ---------------------------------------------------------------------

  /** The `wordToNum` table: Malay and English number words. */
  const NumberWords: seq<(string, nat)> :=
    [("satu", 1), ("dua", 2), ("tiga", 3), ("empat", 4), ("lima", 5),
     ("one", 1), ("two", 2), ("three", 3), ("four", 4), ("five", 5),
     ("six", 6), ("seven", 7), ("eight", 8), ("nine", 9), ("ten", 10)]

  /** `wordToNum[w]`, `None` for a word not in the table. */
  function WordToNum(w: string): (r: Option<nat>)
    ensures r.Some? <==> exists k | 0 <= k < |NumberWords| :: NumberWords[k].0 == w
    ensures forall k | 0 <= k < |NumberWords| && NumberWords[k].0 == w :: r == Some(NumberWords[k].1)
    ensures r.Some? ==> 1 <= r.value <= 10 && NoUpper(w)
  {
    NumberWordsDistinct();
    WordIn(NumberWords, w)
  }

  /** No word appears twice in the table. */
  lemma NumberWordsDistinct()
    ensures forall i, j | 0 <= i < j < |NumberWords| :: NumberWords[i].0 != NumberWords[j].0
  {
    forall i, j | 0 <= i < j < |NumberWords| ensures NumberWords[i].0 != NumberWords[j].0 {
      assert NumberWords[i].0[0] != NumberWords[j].0[0] || |NumberWords[i].0| != |NumberWords[j].0|
          || NumberWords[i].0[1] != NumberWords[j].0[1];
    }
  }

  /** The value of the first entry of `table` for `w`. */
  function WordIn(table: seq<(string, nat)>, w: string): (r: Option<nat>)
    requires forall k | 0 <= k < |table| :: 1 <= table[k].1 <= 10 && NoUpper(table[k].0)
    ensures r.Some? <==> exists k | 0 <= k < |table| :: table[k].0 == w
    ensures forall k | 0 <= k < |table| && table[k].0 == w && (forall j | 0 <= j < k :: table[j].0 != w) ::
              r == Some(table[k].1)
    ensures r.Some? ==> 1 <= r.value <= 10 && NoUpper(w)
  {
    if table == [] then None
    else if table[0].0 == w then Some(table[0].1)
    else
      var r := WordIn(table[1..], w);
      assert forall k | 1 <= k < |table| :: table[k] == table[1..][k - 1];
      r
  }

  /** The alternatives of the quantity pattern. */
  predicate IsQuantityWord(w: string) {
    WordToNum(w).Some? || (w != [] && AllDigits(w))
  }

  /** A `\b` that opens a run of word characters sits at `i`. */
  predicate RunStartAt(s: string, i: nat)
    requires i < |s|
  {
    IsWordChar(s[i]) && (i == 0 || !IsWordChar(s[i - 1]))
  }

  /** The maximal run of word characters that starts at `i`. */
  function WordRun(s: string, i: nat): string
    requires i <= |s|
  {
    s[i..SkipWhile(s, i, IsWordChar)]
  }

  /** The maximal runs of word characters from `i` on that satisfy `q`, in
      text order; after a run, kept or not, the scan goes on where it ends. */
  function RunTokens(s: string, i: nat, q: string -> bool): (ts: seq<string>)
    requires i <= |s|
    ensures forall k | 0 <= k < |ts| :: q(ts[k])
    decreases |s| - i
  {
    if i == |s| then []
    else if RunStartAt(s, i) then
      var j := SkipWhile(s, i, IsWordChar);
      if q(s[i..j]) then [s[i..j]] + RunTokens(s, j, q) else RunTokens(s, j, q)
    else RunTokens(s, i + 1, q)
  }

  /** `s.match(/\b(satu|…|ten|\d+)\b/g)`.  Both ends are word boundaries
      and every alternative consists of word characters, so a match is a
      whole maximal run of word characters that is one of the words or all
      digits. */
  function QuantityTokens(s: string): (ts: seq<string>)
    ensures forall k | 0 <= k < |ts| :: IsQuantityWord(ts[k])
  {
    RunTokens(s, 0, IsQuantityWord)
  }

  /** `starts` lists, in increasing order, the run starts from `i` on whose
      runs satisfy `q`, and `ts` holds those runs. */
  predicate TokenStarts(s: string, i: nat, q: string -> bool, ts: seq<string>, starts: seq<nat>)
    requires i <= |s|
  {
    && |starts| == |ts|
    && (forall k | 0 <= k < |starts| ::
          i <= starts[k] < |s| && RunStartAt(s, starts[k]) && ts[k] == WordRun(s, starts[k]))
    && (forall k, l | 0 <= k < l < |starts| :: starts[k] < starts[l])
    && (forall p | i <= p < |s| && RunStartAt(s, p) :: q(WordRun(s, p)) <==> p in starts)
  }

  lemma {:induction false} RunTokenStarts(s: string, i: nat, q: string -> bool) returns (starts: seq<nat>)
    requires i <= |s|
    ensures TokenStarts(s, i, q, RunTokens(s, i, q), starts)
    decreases |s| - i
  {
    if i == |s| {
      starts := [];
    } else if RunStartAt(s, i) {
      var j := SkipWhile(s, i, IsWordChar);
      var rest := RunTokenStarts(s, j, q);
      SkipWhileRun(s, i, IsWordChar);
      if q(s[i..j]) {
        starts := [i] + rest;
        TokenStartsCons(s, i, j, q, RunTokens(s, j, q), rest);
      } else {
        starts := rest;
        TokenStartsOver(s, i, j, q, RunTokens(s, j, q), rest);
      }
    } else {
      starts := RunTokenStarts(s, i + 1, q);
    }
  }

  /** A run whose word `q` keeps adds its start in front. */
  lemma TokenStartsCons(s: string, i: nat, j: nat, q: string -> bool, ts: seq<string>, rest: seq<nat>)
    requires i < j <= |s| && RunStartAt(s, i) && j == SkipWhile(s, i, IsWordChar)
    requires q(s[i..j])
    requires forall k | i <= k < j :: IsWordChar(s[k])
    requires TokenStarts(s, j, q, ts, rest)
    ensures TokenStarts(s, i, q, [s[i..j]] + ts, [i] + rest)
  {
    var starts := [i] + rest;
    IncreasingCons(i, rest);
    forall p | i <= p < |s| && RunStartAt(s, p)
      ensures q(WordRun(s, p)) <==> p in starts
    {
      if p >= j { assert p in starts <==> p in rest; }
    }
  }

  /** A start before every later start keeps the starts increasing. */
  lemma IncreasingCons(i: nat, rest: seq<nat>)
    requires forall k | 0 <= k < |rest| :: i < rest[k]
    requires forall k, l | 0 <= k < l < |rest| :: rest[k] < rest[l]
    ensures forall k, l | 0 <= k < l < |[i] + rest| :: ([i] + rest)[k] < ([i] + rest)[l]
  {
    var starts := [i] + rest;
    forall k, l | 0 <= k < l < |starts| ensures starts[k] < starts[l] {
      assert starts[l] == rest[l - 1];
      if k > 0 { assert starts[k] == rest[k - 1]; }
    }
  }

  /** A run whose word `q` drops adds nothing. */
  lemma TokenStartsOver(s: string, i: nat, j: nat, q: string -> bool, ts: seq<string>, rest: seq<nat>)
    requires i < j <= |s| && RunStartAt(s, i) && j == SkipWhile(s, i, IsWordChar)
    requires !q(s[i..j])
    requires forall k | i <= k < j :: IsWordChar(s[k])
    requires TokenStarts(s, j, q, ts, rest)
    ensures TokenStarts(s, i, q, ts, rest)
  {
    forall p | i <= p < |s| && RunStartAt(s, p)
      ensures q(WordRun(s, p)) <==> p in rest
    {
      if p < j {
        assert p == i;
      }
    }
  }

  /** The tokens are the quantity-word runs of the text, in text order: each
      token is the maximal run of word characters at a strictly later run
      start than the one before, and a run start is among them exactly when
      its run is a number word or all digits. */
  lemma QuantityTokenStarts(s: string) returns (starts: seq<nat>)
    ensures |starts| == |QuantityTokens(s)|
    ensures forall k | 0 <= k < |starts| ::
              starts[k] < |s| && RunStartAt(s, starts[k])
              && QuantityTokens(s)[k] == WordRun(s, starts[k])
    ensures forall k, l | 0 <= k < l < |starts| :: starts[k] < starts[l]
    ensures forall p | 0 <= p < |s| && RunStartAt(s, p) :: IsQuantityWord(WordRun(s, p)) <==> p in starts
  {
    starts := RunTokenStarts(s, 0, IsQuantityWord);
  }

  /** `wordToNum[q.toLowerCase()] || parseInt(q) || 1` */
  function QuantityValue(q: string): (n: int)
    ensures n != 0
    ensures WordToNum(ToLower(q)).Some? ==> n == WordToNum(ToLower(q)).value
    ensures WordToNum(ToLower(q)).None? && q != [] && AllDigits(q) ==>
              n == if DigitsValue(q) == 0 then 1 else DigitsValue(q)
    ensures WordToNum(ToLower(q)).Some? || (q != [] && AllDigits(q)) ==> n >= 1
  {
    match WordToNum(ToLower(q))
    case Some(v) => v
    case None =>
      if q != [] && AllDigits(q) then
        ParseIntOfDigits(q);
        OrOne(ParseInt(q))
      else
        OrOne(ParseInt(q))
  }

  /** The quantities spoken in the lower-cased text, one per quantity token
      and in the same order (see `QuantityTokenStarts`). */
  function Quantities(lowerText: string): (qs: seq<int>)
    ensures |qs| == |QuantityTokens(lowerText)|
    ensures forall k | 0 <= k < |qs| :: qs[k] == QuantityValue(QuantityTokens(lowerText)[k]) && qs[k] >= 1
  {
    var ts := QuantityTokens(lowerText);
    forall k | 0 <= k < |ts| ensures WordToNum(ToLower(ts[k])).Some? || (ts[k] != [] && AllDigits(ts[k])) {
      if WordToNum(ts[k]).Some? {
        ToLowerNoUpper(ts[k]);
      }
    }
    seq(|ts|, k requires 0 <= k < |ts| => QuantityValue(ts[k]))
  }

  /** `quantities[quantityIndex] || 1` */
  function QuantityAt(qs: seq<int>, k: nat): (n: int)
    ensures n != 0
    ensures k < |qs| && qs[k] != 0 ==> n == qs[k]
    ensures k >= |qs| ==> n == 1
  {
    if k < |qs| && qs[k] != 0 then qs[k] else 1
  }

  // ---------------------------------------------------------------------
  // Free speech: menu matching
  // ---------------------------------------------------------------------

  /** Some keyword of the item, lower-cased, occurs in the lower-cased text. */
  predicate Mentions(item: MenuItem, lowerText: string) {
    exists k | 0 <= k < |item.keywords| :: Contains(lowerText, ToLower(item.keywords[k]))
  }

  /** The menu entries the text mentions, in menu order. */
  function Mentioned(menu: MenuItems, lowerText: string): (r: MenuItems)
    ensures |r| <= |menu|
  {
    if menu == [] then []
    else
      var init := Mentioned(menu[..|menu| - 1], lowerText);
      assert menu == menu[..|menu| - 1] + [menu[|menu| - 1]];
      if Mentions(menu[|menu| - 1].1, lowerText) then init + [menu[|menu| - 1]] else init
  }

  /** The orders free speech yields: one per mentioned entry, the `k`-th
      taking the `k`-th spoken quantity. */
  function FreeTextOrders(menu: MenuItems, lowerText: string, qs: seq<int>): (os: seq<Order>)
    ensures |os| == |Mentioned(menu, lowerText)| <= |menu|
    ensures forall k | 0 <= k < |os| ::
      os[k].item == Mentioned(menu, lowerText)[k].1.name && os[k].price == Mentioned(menu, lowerText)[k].1.price
      && os[k].quantity != 0 && (k < |qs| && qs[k] != 0 ==> os[k].quantity == qs[k])
  {
    var found := Mentioned(menu, lowerText);
    seq(|found|, k requires 0 <= k < |found| => Order(found[k].1.name, found[k].1.price, QuantityAt(qs, k)))
  }

  /** The orders for a menu with one more entry at the end. */
  lemma FreeTextOrdersSnoc(menu: MenuItems, lowerText: string, qs: seq<int>)
    requires menu != []
    ensures var init, last := menu[..|menu| - 1], menu[|menu| - 1].1;
            FreeTextOrders(menu, lowerText, qs)
            == FreeTextOrders(init, lowerText, qs)
               + if Mentions(last, lowerText)
                 then [Order(last.name, last.price, QuantityAt(qs, |Mentioned(init, lowerText)|))]
                 else []
  {
    var init, last := menu[..|menu| - 1], menu[|menu| - 1].1;
    var found, before := Mentioned(menu, lowerText), Mentioned(init, lowerText);
    if Mentions(last, lowerText) {
      assert found == before + [menu[|menu| - 1]];
    } else {
      assert found == before;
    }
  }

  /** The `Object.keys(menuItems).forEach` step of `parseOrderFromText`. */
  method MatchMenuItems(menu: MenuItems, lowerText: string, quantities: seq<int>)
    returns (orders: seq<Order>)
    ensures orders == FreeTextOrders(menu, lowerText, quantities)
  {
    orders := [];
    var quantityIndex := 0;
    var i := 0;
    while i < |menu|
      invariant 0 <= i <= |menu|
      invariant quantityIndex == |orders| == |Mentioned(menu[..i], lowerText)|
      invariant orders == FreeTextOrders(menu[..i], lowerText, quantities)
    {
      var itemData := menu[i].1;
      assert menu[..i + 1][..i] == menu[..i];
      FreeTextOrdersSnoc(menu[..i + 1], lowerText, quantities);
      if Mentions(itemData, lowerText) {
        orders := orders + [Order(itemData.name, itemData.price, QuantityAt(quantities, quantityIndex))];
        quantityIndex := quantityIndex + 1;
      }
      i := i + 1;
    }
    assert menu[..i] == menu;
  }

  /** The test that sends a reply down the structured path. */
  predicate IsStructuredReply(text: string) {
    Contains(text, "RM") && Contains(text, "each")
  }

  /** What `parseOrderFromText` returns for `text` with `promptText` in the
      prompt box. */
  function OrdersFromText(text: string, promptText: string): (os: seq<Order>)
    ensures IsStructuredReply(text) ==> os == StructuredOrders(text)
    ensures !IsStructuredReply(text) ==> |os| <= |MenuOf(promptText)|
    ensures !IsStructuredReply(text) && MenuOf(promptText) == [] ==> os == []
  {
    if IsStructuredReply(text) then StructuredOrders(text)
    else
      var lowerText := ToLower(text);
      FreeTextOrders(MenuOf(promptText), lowerText, Quantities(lowerText))
  }

  /** `parseOrderFromText(text)`, the prompt box's content passed in. */
  method ParseOrderFromText(text: string, promptText: string) returns (orders: seq<Order>)
    ensures orders == OrdersFromText(text, promptText)
  {
    if IsStructuredReply(text) {
      orders := ParseStructuredResponse(text);
      return;
    }
    var lowerText := ToLower(text);
    var menuItems := ExtractMenuFromPrompt(promptText);
    if |menuItems| == 0 {
      orders := [];
      return;
    }
    var quantities := Quantities(lowerText);
    orders := MatchMenuItems(menuItems, lowerText, quantities);
  }

  /** The mentioned entries are the entries of the menu that the text
      mentions, each once and in menu order: `idx` says where each one
      stands in the menu. */
  lemma {:induction false} MentionedIndices(menu: MenuItems, lowerText: string) returns (idx: seq<nat>)
    ensures |idx| == |Mentioned(menu, lowerText)|
    ensures forall k | 0 <= k < |idx| :: idx[k] < |menu| && menu[idx[k]] == Mentioned(menu, lowerText)[k]
    ensures forall k, l | 0 <= k < l < |idx| :: idx[k] < idx[l]
    ensures forall j | 0 <= j < |menu| :: Mentions(menu[j].1, lowerText) <==> j in idx
    decreases |menu|
  {
    if menu == [] {
      idx := [];
    } else {
      var n := |menu| - 1;
      var init := menu[..n];
      var idx0 := MentionedIndices(init, lowerText);
      assert forall j | 0 <= j < n :: init[j] == menu[j];
      var found, found0 := Mentioned(menu, lowerText), Mentioned(init, lowerText);
      if Mentions(menu[n].1, lowerText) {
        idx := idx0 + [n];
        assert found == found0 + [menu[n]];
        assert idx[|idx0|] == n;
      } else {
        idx := idx0;
        assert found == found0;
      }
    }
  }

  /** Free speech orders the entries of the menu that the text mentions,
      each once and in menu order (`idx` says where they stand), with their
      names and prices; the `k`-th takes the `k`-th spoken quantity, or 1 when
      fewer were spoken. */
  lemma FreeTextOrdersSound(text: string, promptText: string) returns (idx: seq<nat>)
    requires !IsStructuredReply(text)
    ensures var orders, menu := OrdersFromText(text, promptText), MenuOf(promptText);
            var qs := Quantities(ToLower(text));
            |orders| == |idx| <= |menu|
            && (forall k, l | 0 <= k < l < |idx| :: idx[k] < idx[l])
            && (forall j | 0 <= j < |menu| :: Mentions(menu[j].1, ToLower(text)) <==> j in idx)
            && (forall k | 0 <= k < |orders| ::
                  idx[k] < |menu|
                  && orders[k] == Order(menu[idx[k]].1.name, menu[idx[k]].1.price,
                                        if k < |qs| then qs[k] else 1))
  {
    idx := MentionedIndices(MenuOf(promptText), ToLower(text));
  }
}

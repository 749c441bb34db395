/** The menu vocabulary builder (`extractMenuFromPrompt`): every line of the
    configuration text is matched against
        ^-?\s*([^-:$]+?)[\s\-:]*(?:RM|rm|\$)?(\d+\.?\d*)
    and each accepted line becomes an entry of an object keyed by the
    lower-cased item name. */
module Menu {
  import opened Wrappers
  import opened Text
  import opened Numbers

  /** `[^-:$]`, the characters the name group may hold. */
  predicate IsNameChar(c: char) {
    c != '-' && c != ':' && c != '$'
  }

  /** `[\s\-:]`, the separators between the name and the price. */
  predicate IsSepChar(c: char) {
    IsSpace(c) || c == '-' || c == ':'
  }

  predicate AllSepBetween(line: string, i: nat, j: nat)
    requires i <= j <= |line|
  {
    forall k | i <= k < j :: IsSepChar(line[k])
  }

  /** `(?:RM|rm|\$)?\d` can match at `k`. */
  predicate PriceAt(line: string, k: nat) {
    ((StartsAt(line, k, "RM") || StartsAt(line, k, "rm")) && k + 2 < |line| && IsDigit(line[k + 2]))
    || (StartsAt(line, k, "$") && k + 1 < |line| && IsDigit(line[k + 1]))
    || (k < |line| && IsDigit(line[k]))
  }

  /** The rest of the pattern, `[\s\-:]*(?:RM|rm|\$)?(\d+\.?\d*)`, can match at
      `e`, where the name group would end. */
  ghost predicate CanEndName(line: string, e: nat)
    requires e <= |line|
  {
    exists k :: e <= k <= |line| && AllSepBetween(line, e, k) && PriceAt(line, k)
  }

  /** Where the price digits start once the greedy `[\s\-:]*` has stopped at
      `q`: the optional currency marker is tried as `RM`, `rm`, `$` and then
      as nothing, and a digit must follow. */
  function PriceStart(line: string, q: nat): (r: Option<nat>)
    requires q <= |line|
    ensures r.Some? <==> PriceAt(line, q)
    ensures r.Some? ==> q <= r.value < |line| && IsDigit(line[r.value])
    ensures r.Some? ==> line[q..r.value] in ["", "$", "RM", "rm"]
  {
    if StartsAt(line, q, "RM") && q + 2 < |line| && IsDigit(line[q + 2]) then Some(q + 2)
    else if StartsAt(line, q, "rm") && q + 2 < |line| && IsDigit(line[q + 2]) then Some(q + 2)
    else if StartsAt(line, q, "$") && q + 1 < |line| && IsDigit(line[q + 1]) then Some(q + 1)
    else if q < |line| && IsDigit(line[q]) then assert line[q..q] == ""; Some(q)
    else None
  }

  /** A price never starts with a separator. */
  lemma PriceAtNotSep(line: string, k: nat)
    requires PriceAt(line, k)
    ensures k < |line| && !IsSepChar(line[k])
  {
    if StartsAt(line, k, "RM") || StartsAt(line, k, "rm") || StartsAt(line, k, "$") {
      assert line[k] == line[k..k + 1][0];
    }
  }

  /** Only the longest run of separators can be followed by a price, because a
      separator is neither a digit nor the start of a currency marker. */
  lemma PriceAfterSeparators(line: string, e: nat)
    requires e <= |line|
    ensures PriceStart(line, SkipWhile(line, e, IsSepChar)).Some? <==> CanEndName(line, e)
  {
    var q := SkipWhile(line, e, IsSepChar);
    SkipWhileRun(line, e, IsSepChar);
    if PriceStart(line, q).Some? {
      assert AllSepBetween(line, e, q) && PriceAt(line, q);
    }
    if CanEndName(line, e) {
      var k :| e <= k <= |line| && AllSepBetween(line, e, k) && PriceAt(line, k);
      PriceAtNotSep(line, k);
      assert !(k < q);
      assert k == q;
    }
  }

  /** A match of the whole pattern: the name group is `line[nameStart..nameEnd]`
      and the price group is `line[priceStart..priceEnd]`. */
  datatype MenuMatch = MenuMatch(nameStart: nat, nameEnd: nat, priceStart: nat, priceEnd: nat)

  predicate AllNameChars(line: string, i: nat, j: nat)
    requires i <= j <= |line|
  {
    forall k | i <= k < j :: IsNameChar(line[k])
  }

  /** The lazy `[^-:$]+?`: the name group is tried as ending at `e`, then
      one character further on, and so on, until the rest of the pattern
      matches after it; the end reached, or `None` when a character that
      cannot belong to a name comes first. */
  function LazyNameEnd(line: string, e: nat): (r: Option<nat>)
    requires e <= |line|
    ensures r.Some? ==> e <= r.value <= |line|
                        && PriceStart(line, SkipWhile(line, r.value, IsSepChar)).Some?
    decreases |line| - e
  {
    if PriceStart(line, SkipWhile(line, e, IsSepChar)).Some? then Some(e)
    else if e < |line| && IsNameChar(line[e]) then LazyNameEnd(line, e + 1)
    else None
  }

  /** The name group started at `p`, with the price group after it. */
  function MatchAtStart(line: string, p: nat): (m: Option<MenuMatch>)
    requires p <= |line|
  {
    if p < |line| && IsNameChar(line[p]) then
      match LazyNameEnd(line, p + 1)
      case None => None
      case Some(e) =>
        var r := PriceStart(line, SkipWhile(line, e, IsSepChar)).value;
        Some(MenuMatch(p, e, r, DecimalGroupEnd(line, r)))
    else None
  }

  /** The greedy `\s*` before the name: the name is tried at `p`, the end of
      the white space, and on failure at every earlier start down to `lo`. */
  function MatchBacktrackingSpace(line: string, lo: nat, p: nat): (m: Option<MenuMatch>)
    requires lo <= p <= |line|
    decreases p
  {
    match MatchAtStart(line, p)
    case Some(m) => Some(m)
    case None => if p > lo then MatchBacktrackingSpace(line, lo, p - 1) else None
  }

  /** `line.match(...)` for the anchored menu pattern, explored in the order a
      backtracking engine explores it: first with the optional leading `-`
      taken, then without it.  A match is anchored: the text before the name
      is `-?\s*`, the name is non-empty and made of name characters, it is
      the shortest name from that start after which separators, an optional
      currency marker and the digits follow, and the price group is a
      `\d+\.?\d*` that starts right after them (`MatchMenuLineComplete` is
      the converse). */
  function MatchMenuLine(line: string): (m: Option<MenuMatch>)
    ensures m.Some? ==> ValidNameMatch(line, m.value)
    ensures m.Some? ==>
      AllSpace(line[..m.value.nameStart]) || (line[0] == '-' && AllSpace(line[1..m.value.nameStart]))
  {
    var withDash :=
      if |line| > 0 && line[0] == '-' then MatchBacktrackingSpace(line, 1, SkipWhile(line, 1, IsSpace))
      else None;
    if withDash.Some? then
      SkipWhileRun(line, 1, IsSpace);
      BacktrackingSpaceSound(line, 1, SkipWhile(line, 1, IsSpace));
      withDash
    else
      var plain := MatchBacktrackingSpace(line, 0, SkipWhile(line, 0, IsSpace));
      if plain.Some? then
        assert line[0..] == line;
        SkipWhileRun(line, 0, IsSpace);
        BacktrackingSpaceSound(line, 0, SkipWhile(line, 0, IsSpace));
        plain
      else plain
  }

  /** The lazy name search finds the SHORTEST name after which the rest of
      the pattern matches. */
  lemma {:induction false} LazyNameEndShortest(line: string, p: nat, e: nat, n: nat)
    requires p < e <= |line| && AllNameChars(line, p, e)
    requires LazyNameEnd(line, e) == Some(n)
    ensures AllNameChars(line, p, n) && CanEndName(line, n)
    ensures forall e' | e <= e' < n :: !CanEndName(line, e')
    decreases |line| - e
  {
    PriceAfterSeparators(line, e);
    if PriceStart(line, SkipWhile(line, e, IsSepChar)).None? {
      assert e < |line| && IsNameChar(line[e]);
      assert AllNameChars(line, p, e + 1);
      LazyNameEndShortest(line, p, e + 1, n);
    }
  }

  /** The lazy name search fails only when no name made of name characters can
      be followed by the rest of the pattern. */
  lemma {:induction false} LazyNameEndFails(line: string, p: nat, e: nat)
    requires p < e <= |line| && AllNameChars(line, p, e)
    requires LazyNameEnd(line, e).None?
    ensures forall e' | e <= e' <= |line| && AllNameChars(line, p, e') :: !CanEndName(line, e')
    decreases |line| - e
  {
    PriceAfterSeparators(line, e);
    if e < |line| && IsNameChar(line[e]) {
      LazyNameEndFails(line, p, e + 1);
    } else {
      forall e' | e <= e' <= |line| && AllNameChars(line, p, e') ensures !CanEndName(line, e') {
        assert e' == e;
      }
    }
  }

  /** The name group `line[m.nameStart..m.nameEnd]` is a shortest name after
      which the rest of the pattern matches, and the price group is a
      `\d+\.?\d*` that starts right after the separators and currency marker
      and, being greedy, cannot be extended (`DecimalGroupEndUnique`). */
  ghost predicate ValidNameMatch(line: string, m: MenuMatch) {
    m.nameStart < m.nameEnd <= m.priceStart < m.priceEnd <= |line|
    && AllNameChars(line, m.nameStart, m.nameEnd)
    && CanEndName(line, m.nameEnd)
    && (forall e' | m.nameStart < e' < m.nameEnd :: !CanEndName(line, e'))
    && IsDecimalGroup(line[m.priceStart..m.priceEnd])
    && DecimalGroupMaximal(line, m.priceStart, m.priceEnd)
    && var q := SkipWhile(line, m.nameEnd, IsSepChar);
       q <= m.priceStart && line[q..m.priceStart] in ["", "$", "RM", "rm"]
  }

  lemma MatchAtStartSound(line: string, p: nat)
    requires p <= |line| && MatchAtStart(line, p).Some?
    ensures MatchAtStart(line, p).value.nameStart == p
    ensures ValidNameMatch(line, MatchAtStart(line, p).value)
  {
    var m := MatchAtStart(line, p).value;
    LazyNameEndShortest(line, p, p + 1, m.nameEnd);
    DecimalGroupEndSound(line, m.priceStart);
    DecimalGroupEndMaximal(line, m.priceStart);
  }

  /** The backtracking search returns the match of the name tried at some
      start between `lo` and `p`, after white space only. */
  lemma {:induction false} BacktrackingSpaceStart(line: string, lo: nat, p: nat)
    requires lo <= p <= |line| && AllSpace(line[lo..p])
    requires MatchBacktrackingSpace(line, lo, p).Some?
    ensures var m := MatchBacktrackingSpace(line, lo, p).value;
      lo <= m.nameStart <= p && AllSpace(line[lo..m.nameStart])
      && MatchAtStart(line, m.nameStart) == Some(m)
    decreases p
  {
    if MatchAtStart(line, p).None? {
      assert p > lo && MatchBacktrackingSpace(line, lo, p) == MatchBacktrackingSpace(line, lo, p - 1);
      AllSpaceShorter(line, lo, p - 1, p);
      BacktrackingSpaceStart(line, lo, p - 1);
    }
  }

  /** A prefix of a run of white space is white space. */
  lemma AllSpaceShorter(line: string, lo: nat, q: nat, p: nat)
    requires lo <= q <= p <= |line| && AllSpace(line[lo..p])
    ensures AllSpace(line[lo..q])
  {
    forall k | 0 <= k < q - lo ensures IsSpace(line[lo..q][k]) {
      assert line[lo..q][k] == line[lo..p][k];
    }
  }

  /** The match the backtracking search returns is a valid match that starts
      after white space only. */
  lemma BacktrackingSpaceSound(line: string, lo: nat, p: nat)
    requires lo <= p <= |line| && AllSpace(line[lo..p])
    requires MatchBacktrackingSpace(line, lo, p).Some?
    ensures var m := MatchBacktrackingSpace(line, lo, p).value;
      lo <= m.nameStart <= p && AllSpace(line[lo..m.nameStart]) && ValidNameMatch(line, m)
  {
    BacktrackingSpaceStart(line, lo, p);
    MatchAtStartSound(line, MatchBacktrackingSpace(line, lo, p).value.nameStart);
  }

  /** `line[..p]` matches the `-?\s*` in front of the name. */
  predicate LeadIn(line: string, p: nat) {
    p <= |line|
    && (AllSpace(line[..p]) || (line != [] && line[0] == '-' && 1 <= p && AllSpace(line[1..p])))
  }

  /** A name tried at `p` fails only when no name from `p` can be followed by
      the rest of the pattern. */
  lemma MatchAtStartNone(line: string, p: nat)
    requires p <= |line| && MatchAtStart(line, p).None?
    ensures forall e | p < e <= |line| && AllNameChars(line, p, e) :: !CanEndName(line, e)
  {
    if p < |line| && IsNameChar(line[p]) {
      LazyNameEndFails(line, p, p + 1);
    }
  }

  /** The backtracking search fails only when the name fails at every start
      it tries. */
  lemma {:induction false} BacktrackingSpaceNone(line: string, lo: nat, p: nat)
    requires lo <= p <= |line| && MatchBacktrackingSpace(line, lo, p).None?
    ensures forall q | lo <= q <= p :: MatchAtStart(line, q).None?
    decreases p
  {
    var here := MatchAtStart(line, p);
    assert here.None?;
    if p > lo {
      BacktrackingSpaceNone(line, lo, p - 1);
    }
    forall q | lo <= q <= p ensures MatchAtStart(line, q).None? {
      if q == p {
        assert MatchAtStart(line, q) == here;
      }
    }
  }

  /** The backtracking search returns the first start that succeeds: every
      start it tried before, further right, failed. */
  lemma {:induction false} BacktrackingSpaceFirst(line: string, lo: nat, p: nat)
    requires lo <= p <= |line| && MatchBacktrackingSpace(line, lo, p).Some?
    ensures forall q | MatchBacktrackingSpace(line, lo, p).value.nameStart < q <= p ::
              MatchAtStart(line, q).None?
    decreases p
  {
    var r := MatchBacktrackingSpace(line, lo, p);
    if MatchAtStart(line, p).Some? {
      MatchAtStartAt(line, p);
    } else {
      assert p > lo && r == MatchBacktrackingSpace(line, lo, p - 1);
      BacktrackingSpaceFirst(line, lo, p - 1);
      NoNameUpTo(line, r.value.nameStart, p);
    }
  }

  /** Starts that fail up to `p - 1` and a failing `p` fail up to `p`. */
  lemma NoNameUpTo(line: string, a: nat, p: nat)
    requires 0 < p <= |line| && MatchAtStart(line, p).None?
    requires forall q | a < q <= p - 1 :: MatchAtStart(line, q).None?
    ensures forall q | a < q <= p :: MatchAtStart(line, q).None?
  {
  }

  /** A name tried at `p` starts at `p`. */
  lemma MatchAtStartAt(line: string, p: nat)
    requires p <= |line| && MatchAtStart(line, p).Some?
    ensures MatchAtStart(line, p).value.nameStart == p
  {
  }

  /** A lead-in of white space reaches no further than the run of white
      space from where it starts. */
  lemma {:induction false} LeadInBound(line: string, lo: nat, p: nat)
    requires lo <= p <= |line| && AllSpace(line[lo..p])
    ensures p <= SkipWhile(line, lo, IsSpace)
    decreases p - lo
  {
    if lo < p {
      assert IsSpace(line[lo..p][0]);
      assert line[lo + 1..p] == line[lo..p][1..];
      LeadInBound(line, lo + 1, p);
    }
  }

  /** The lead-in `-?\s*` the match takes is the longest one after which a
      name can be followed by the rest of the pattern: the engine tries the
      `-` first and each `\s*` from its longest. */
  lemma MatchMenuLineLongest(line: string)
    requires MatchMenuLine(line).Some?
    ensures forall p, e | MatchMenuLine(line).value.nameStart < p < e <= |line|
                          && LeadIn(line, p) && AllNameChars(line, p, e) ::
              !CanEndName(line, e)
  {
    var m := MatchMenuLine(line).value;
    var dash := line != [] && line[0] == '-';
    var s0 := SkipWhile(line, 0, IsSpace);
    var s1 := if dash then SkipWhile(line, 1, IsSpace) else 0;
    if dash {
      SpaceRunSlice(line, 1);
    }
    if dash && MatchBacktrackingSpace(line, 1, s1).Some? {
      BacktrackingSpaceSound(line, 1, s1);
      BacktrackingSpaceFirst(line, 1, s1);
      forall p | m.nameStart < p <= |line| && LeadIn(line, p) ensures MatchAtStart(line, p).None? {
        assert !AllSpace(line[..p]) by {
          assert line[..p][0] == '-';
        }
        LeadInBound(line, 1, p);
      }
    } else {
      if dash {
        BacktrackingSpaceNone(line, 1, s1);
      }
      BacktrackingSpaceFirst(line, 0, s0);
      forall p | m.nameStart < p <= |line| && LeadIn(line, p) ensures MatchAtStart(line, p).None? {
        if AllSpace(line[..p]) {
          assert line[..p] == line[0..p];
          LeadInBound(line, 0, p);
        } else {
          LeadInBound(line, 1, p);
        }
      }
    }
    forall p | m.nameStart < p <= |line| && LeadIn(line, p)
      ensures forall e | p < e <= |line| && AllNameChars(line, p, e) :: !CanEndName(line, e)
    {
      MatchAtStartNone(line, p);
    }
  }

  /** The converse of the contract of `MatchMenuLine`: the match fails only when, for
      every start after `-?\s*` and every non-empty name of name characters
      from there, the separators, currency marker and digits cannot follow. */
  lemma MatchMenuLineComplete(line: string)
    requires MatchMenuLine(line).None?
    ensures forall p, e | 0 <= p < e <= |line| && LeadIn(line, p) && AllNameChars(line, p, e) ::
              !CanEndName(line, e)
  {
    var s0 := SkipWhile(line, 0, IsSpace);
    BacktrackingSpaceNone(line, 0, s0);
    if line != [] && line[0] == '-' {
      BacktrackingSpaceNone(line, 1, SkipWhile(line, 1, IsSpace));
    }
    forall p, e | 0 <= p < e <= |line| && LeadIn(line, p) && AllNameChars(line, p, e)
      ensures !CanEndName(line, e)
    {
      if AllSpace(line[..p]) {
        assert line[0..p] == line[..p];
        assert p <= s0;
      } else {
        assert p <= SkipWhile(line, 1, IsSpace);
      }
      MatchAtStartNone(line, p);
    }
  }

  /** One menu entry: the original-cased name, its price and its keywords. */
  datatype MenuItem = MenuItem(name: string, price: real, keywords: seq<string>)

  /** The `menuItems` object: its own properties in the order `Object.keys`
      lists them.  That is insertion order, because no key is an array
      index: the lazy name stops before the first digit that can start the
      price, so a key never consists of digits only. */
  type MenuItems = seq<(string, MenuItem)>

  function Keys(menu: MenuItems): (ks: seq<string>)
    ensures |ks| == |menu| && forall i | 0 <= i < |menu| :: ks[i] == menu[i].0
  {
    seq(|menu|, i requires 0 <= i < |menu| => menu[i].0)
  }

  predicate DistinctKeys(menu: MenuItems) {
    forall i, j | 0 <= i < j < |menu| :: menu[i].0 != menu[j].0
  }

  /** `menu[key]` */
  function Lookup(menu: MenuItems, key: string): (r: Option<MenuItem>)
    ensures r.None? <==> key !in Keys(menu)
    ensures r.Some? ==> (key, r.value) in menu
  {
    if menu == [] then None
    else if menu[0].0 == key then Some(menu[0].1)
    else Lookup(menu[1..], key)
  }

  /** `menu[key] = item`: a new key is added at the end, an existing key keeps
      its place and gets the new value. */
  function Put(menu: MenuItems, key: string, item: MenuItem): MenuItems
  {
    if menu == [] then [(key, item)]
    else if menu[0].0 == key then [(key, item)] + menu[1..]
    else [menu[0]] + Put(menu[1..], key, item)
  }

  /** The keys of a list with one more entry in front. */
  lemma KeysCons(e: (string, MenuItem), rest: MenuItems)
    ensures Keys([e] + rest) == [e.0] + Keys(rest)
  {
    var l := [e] + rest;
    var a := Keys(l);
    var b := [e.0] + Keys(rest);
    assert |a| == |b|;
    forall i | 0 <= i < |a| ensures a[i] == b[i] {
      if i > 0 {
        assert l[i] == rest[i - 1];
      }
    }
  }

  /** A new key goes to the end of the enumeration order; an existing key
      keeps its place. */
  lemma {:induction false} PutKeys(menu: MenuItems, key: string, item: MenuItem)
    ensures Keys(Put(menu, key, item)) == if key in Keys(menu) then Keys(menu) else Keys(menu) + [key]
  {
    if menu == [] {
    } else {
      var ks := Keys(menu[1..]);
      assert menu == [menu[0]] + menu[1..];
      KeysCons(menu[0], menu[1..]);
      assert (key in Keys(menu)) == (key == menu[0].0 || key in ks);
      if menu[0].0 == key {
        KeysCons((key, item), menu[1..]);
      } else {
        var rest := Put(menu[1..], key, item);
        PutKeys(menu[1..], key, item);
        KeysCons(menu[0], rest);
        if key !in ks {
          assert [menu[0].0] + (ks + [key]) == ([menu[0].0] + ks) + [key];
        }
      }
    }
  }

  /** Every entry after the assignment was there before or is the new one. */
  lemma {:induction false} PutEntries(menu: MenuItems, key: string, item: MenuItem)
    ensures forall e | e in Put(menu, key, item) :: e in menu || e == (key, item)
  {
    if menu != [] && menu[0].0 != key {
      PutEntries(menu[1..], key, item);
      assert Put(menu, key, item) == [menu[0]] + Put(menu[1..], key, item);
    }
  }

  /** Assigning to a property keeps the keys distinct. */
  lemma PutDistinct(menu: MenuItems, key: string, item: MenuItem)
    requires DistinctKeys(menu)
    ensures DistinctKeys(Put(menu, key, item))
  {
    var r := Put(menu, key, item);
    var ks := Keys(r);
    PutKeys(menu, key, item);
    assert forall i | 0 <= i < |r| :: r[i].0 == ks[i];
    if key !in Keys(menu) {
      assert forall i | 0 <= i < |menu| :: menu[i].0 == Keys(menu)[i];
    }
  }

  /** After `menu[key] = item`, `key` finds `item` and every other key what
      it found before. */
  lemma {:induction false} PutLookup(menu: MenuItems, key: string, item: MenuItem, k: string)
    ensures Lookup(Put(menu, key, item), k) == if k == key then Some(item) else Lookup(menu, k)
  {
    if menu != [] && menu[0].0 != key {
      var rest := Put(menu[1..], key, item);
      PutLookup(menu[1..], key, item, k);
      assert Put(menu, key, item) == [menu[0]] + rest;
      assert ([menu[0]] + rest)[1..] == rest;
    }
  }

  /** The guard that throws away template, example, heading and total rows. */
  predicate IsSkippedName(name: string) {
    Contains(name, "Example") || Contains(name, "#") || Contains(name, "*")
    || |name| < 2 || Contains(name, "Subtotal") || Contains(name, "Total")
  }

  /** Assigning to the property `__proto__` replaces the object's prototype
      and creates no own key, so `Object.keys` never lists it. */
  const ProtoKey: string := "__proto__"

  /** What a line contributes: the lower-cased name as key and the entry. */
  type Contribution = Option<(string, MenuItem)>

  predicate WellFormedEntry(entry: (string, MenuItem)) {
    var (key, item) := entry;
    key == ToLower(item.name) && key != ProtoKey
    && item.keywords == SplitSpace(key)
    && item.price > 0.0
    && |item.name| >= 2 && NoEdgeSpace(item.name) && !IsSkippedName(item.name)
    && (forall k | 0 <= k < |item.keywords| :: item.keywords[k] != [] && NoSpace(item.keywords[k]))
  }

  /** The entry one line contributes, if any.  The captured price is never
      `NaN`: the group is `\d+\.?\d*`.  A name that lower-cases to
      `__proto__` adds no key. */
  function LineEntry(line: string): (c: Contribution)
    ensures c.Some? ==> c.value.0 == ToLower(c.value.1.name) != ProtoKey
    ensures c.Some? ==> c.value.1.price > 0.0 && !IsSkippedName(c.value.1.name)
  {
    match MatchMenuLine(line)
    case None => None
    case Some(m) =>
      var name := Trim(line[m.nameStart..m.nameEnd]);
      var price := DecimalGroupValue(line[m.priceStart..m.priceEnd]);
      var key := ToLower(name);
      if IsSkippedName(name) || key == ProtoKey then None
      else if name != [] && price > 0.0 then
        Some((key, MenuItem(name, price, SplitSpace(key))))
      else None
  }

  /** What every entry of the menu satisfies. */

  /** An accepted line yields an entry keyed by the lower-cased trimmed name,
      holding the trimmed name, a positive price and the lower-cased words of
      the name as keywords; the name is never a heading, example or total. */
  lemma LineEntryWellFormed(line: string)
    requires LineEntry(line).Some?
    ensures WellFormedEntry(LineEntry(line).value)
  {
    var m := MatchMenuLine(line).value;
    var name := Trim(line[m.nameStart..m.nameEnd]);
    var key := ToLower(name);
    assert NoEdgeSpace(key);
    SplitSpaceWords(key);
  }

  /** A line that does not match adds nothing.  A matched line always has a
      price `parseFloat` can read, and it adds an entry exactly when its
      trimmed name passes the skip rules, is not `__proto__`, and the price is
      positive; the entry then holds that trimmed name, that price and the
      lower-cased words of the name, under the lower-cased name. */
  lemma LineEntryOfMatch(line: string)
    ensures MatchMenuLine(line).None? ==> LineEntry(line).None?
    ensures MatchMenuLine(line).Some? ==>
      var m := MatchMenuLine(line).value;
      var name := Trim(line[m.nameStart..m.nameEnd]);
      var price := ParseFloat(line[m.priceStart..m.priceEnd]);
      price == Some(DecimalGroupValue(line[m.priceStart..m.priceEnd]))
      && (LineEntry(line).Some? <==> !IsSkippedName(name) && ToLower(name) != ProtoKey && price.value > 0.0)
      && (LineEntry(line).Some? ==>
            LineEntry(line).value == (ToLower(name), MenuItem(name, price.value, SplitSpace(ToLower(name)))))
  {
    if MatchMenuLine(line).Some? {
      var m := MatchMenuLine(line).value;
      ParseFloatOfGroup(line[m.priceStart..m.priceEnd]);
    }
  }

  /** The price group of a line match is the greedy `\d+\.?\d*`: it ends
      where the greedy digits-dot-digits run from its first digit ends. */
  lemma MatchMenuLinePriceGreedy(line: string)
    requires MatchMenuLine(line).Some?
    ensures var m := MatchMenuLine(line).value;
      m.priceStart < |line| && IsDigit(line[m.priceStart])
      && m.priceEnd == DecimalGroupEnd(line, m.priceStart)
  {
    var m := MatchMenuLine(line).value;
    DecimalGroupEndUnique(line, m.priceStart, m.priceEnd);
  }

  /** In `ab 1.5` the lazy name stops after `ab`, before the separator. */
  lemma ExampleNameEnd()
    ensures LazyNameEnd("ab 1.5", 1) == Some(2)
    ensures PriceStart("ab 1.5", SkipWhile("ab 1.5", 2, IsSepChar)) == Some(3)
  {
    var line := "ab 1.5";
    assert SkipWhile(line, 1, IsSepChar) == 1;
    assert PriceStart(line, 1).None?;
    assert SkipWhile(line, 3, IsSepChar) == 3;
    assert SkipWhile(line, 2, IsSepChar) == 3;
    assert LazyContinues(line, 1);
    LazyNameEndAt(line, 1, 2);
  }

  /** In `ab 1.5` the greedy price group is the whole `1.5`. */
  lemma ExamplePriceEnd()
    ensures DecimalGroupEnd("ab 1.5", 3) == 6
  {
    var line := "ab 1.5";
    assert line[3..6] == "1.5";
    DecimalGroupEndOf(line, 3, "1.5");
  }

  /** `ab 1.5` is matched with the name `ab` and the whole `1.5` as its
      price group. */
  lemma MenuLineExampleMatch()
    ensures MatchMenuLine("ab 1.5") == Some(MenuMatch(0, 2, 3, 6))
  {
    var line := "ab 1.5";
    ExampleNameEnd();
    ExamplePriceEnd();
    MatchAtStartOf(line, 0, 2, 3);
    assert SkipWhile(line, 0, IsSpace) == 0;
    assert MatchBacktrackingSpace(line, 0, 0) == MatchAtStart(line, 0);
  }

  /** The name `ab` passes the skip rules and is its own key and keyword. */
  lemma ExampleName()
    ensures !IsSkippedName("ab") && ToLower("ab") == "ab" && ToLower("ab") != ProtoKey
    ensures SplitSpace("ab") == ["ab"]
  {
  }

  /** `1.5` read as a `\d+\.?\d*` group is 1.5. */
  lemma ExamplePrice()
    ensures DecimalGroupValue("1.5") == 1.5
  {
  }

  /** A price group that stops inside `1.5`, before its dot, is no match. */
  lemma ExampleShortPriceInvalid()
    ensures !ValidNameMatch("ab 1.5", MenuMatch(0, 2, 3, 4))
  {
    var line := "ab 1.5";
    assert line[4] == '.' && line[3..4] == "1";
    assert '.' !in line[3..4];
  }

  /** The entry of a matched line whose trimmed name group and price are
      known. */
  lemma EntryOfMatchedLine(line: string, m: MenuMatch, name: string, price: real)
    requires MatchMenuLine(line) == Some(m)
    requires Trim(line[m.nameStart..m.nameEnd]) == name
    requires DecimalGroupValue(line[m.priceStart..m.priceEnd]) == price
    requires !IsSkippedName(name) && ToLower(name) != ProtoKey && price > 0.0
    ensures LineEntry(line) == Some((ToLower(name), MenuItem(name, price, SplitSpace(ToLower(name)))))
  {
    LineEntryOfMatch(line);
  }

  /** So the entry of `ab 1.5` has the price 1.5, not the 1 of a shorter
      price group. */
  lemma MenuLineExample()
    ensures LineEntry("ab 1.5") == Some(("ab", MenuItem("ab", 1.5, ["ab"])))
  {
    var line := "ab 1.5";
    MenuLineExampleMatch();
    assert line[0..2] == "ab" && line[3..6] == "1.5";
    TrimNoEdgeSpace("ab");
    ExampleName();
    ExamplePrice();
    EntryOfMatchedLine(line, MenuMatch(0, 2, 3, 6), "ab", 1.5);
  }

  /** A name the voice app can be configured with and read back: name
      characters only, no digits, no white space at the ends, and one that the
      skip rules and the `__proto__` guard keep. */
  predicate WellFormedMenuName(name: string) {
    PlainMenuName(name) && !IsSkippedName(name) && ToLower(name) != ProtoKey
  }

  /** At least two name characters, none a digit, and no white space at the
      ends. */
  predicate PlainMenuName(name: string) {
    |name| >= 2 && NoEdgeSpace(name)
    && forall k | 0 <= k < |name| :: IsNameChar(name[k]) && !IsDigit(name[k])
  }

  /** A configuration line in the documented format, `- Teh ais: RM3.00`. */
  function RenderMenuLine(name: string, digits: string): string {
    "- " + name + ": RM" + digits
  }

  /** Where the pieces of a line laid out as `- name: RMdigits` sit. */
  predicate MenuLineShape(line: string, name: string, digits: string) {
    var n := 2 + |name|;
    |line| == n + 4 + |digits| && line[0] == '-' && line[1] == ' ' && line[2..n] == name
    && line[n] == ':' && line[n + 1] == ' ' && line[n + 2] == 'R' && line[n + 3] == 'M'
    && line[n + 4..] == digits
  }

  lemma MenuLineLayout(name: string, digits: string)
    ensures MenuLineShape(RenderMenuLine(name, digits), name, digits)
  {
    var line := RenderMenuLine(name, digits);
    var n := 2 + |name|;
    assert line[2..n] == name;
    assert line[n + 4..] == digits;
  }

  /** At `k` the lazy name goes on: a name character, after which the rest of
      the pattern cannot match. */
  predicate LazyContinues(line: string, k: nat)
    requires k < |line|
  {
    IsNameChar(line[k]) && PriceStart(line, SkipWhile(line, k, IsSepChar)).None?
  }

  /** The lazy search runs over name characters that cannot end the name and
      stops at the first position that can. */
  lemma {:induction false} LazyNameEndAt(line: string, e: nat, n: nat)
    requires e <= n <= |line|
    requires forall k | e <= k < n :: LazyContinues(line, k)
    requires PriceStart(line, SkipWhile(line, n, IsSepChar)).Some?
    ensures LazyNameEnd(line, e) == Some(n)
    decreases n - e
  {
    if e < n {
      assert LazyContinues(line, e);
      LazyNameEndStep(line, e);
      LazyNameEndAt(line, e + 1, n);
    }
  }

  /** Where the lazy name can go on, the name end is the one found one
      character further. */
  lemma LazyNameEndStep(line: string, e: nat)
    requires e < |line| && LazyContinues(line, e)
    ensures LazyNameEnd(line, e) == LazyNameEnd(line, e + 1)
  {
  }

  /** Inside a well-formed name the rest of the pattern cannot match: the
      last name character is not a separator, and no digit comes before the
      price. */
  lemma NoEndInsideName(line: string, name: string, digits: string, e: nat)
    requires MenuLineShape(line, name, digits) && PlainMenuName(name) && 3 <= e < 2 + |name|
    ensures IsNameChar(line[e]) && PriceStart(line, SkipWhile(line, e, IsSepChar)).None?
  {
    var n := 2 + |name|;
    assert forall k | 2 <= k < n :: line[k] == line[2..n][k - 2];
    assert !IsSepChar(line[n - 1]);
    forall k | e <= k <= |line| && AllSepBetween(line, e, k)
      ensures !PriceAt(line, k)
    {
      assert k < n;
      assert forall i | k <= i < n + 2 :: !IsDigit(line[i]);
    }
    PriceAfterSeparators(line, e);
  }

  /** After the name, the separators `: ` are skipped and the price digits
      start after `RM`. */
  lemma RenderedPriceStart(line: string, name: string, digits: string)
    requires MenuLineShape(line, name, digits) && IsDecimalGroup(digits)
    ensures var n := 2 + |name|;
      n + 4 < |line| && PriceStart(line, SkipWhile(line, n, IsSepChar)) == Some(n + 4)
  {
    var n := 2 + |name|;
    var q := n + 2;
    assert SkipWhile(line, n, IsSepChar) == q by {
      SkipWhileUnique(line, n, IsSepChar, q);
    }
    assert StartsAt(line, q, "RM") by {
      assert line[q..q + 2] == "RM";
    }
    assert q + 2 < |line| && IsDigit(line[q + 2]) by {
      assert line[n + 4..][0] == digits[0];
    }
  }

  /** The lazy name search stops right at the end of the name. */
  lemma RenderedLazyEnd(line: string, name: string, digits: string)
    requires MenuLineShape(line, name, digits) && PlainMenuName(name) && IsDecimalGroup(digits)
    ensures var n := 2 + |name|;
      n + 4 < |line| && LazyNameEnd(line, 3) == Some(n)
      && PriceStart(line, SkipWhile(line, n, IsSepChar)) == Some(n + 4)
  {
    var n := 2 + |name|;
    RenderedPriceStart(line, name, digits);
    forall k | 3 <= k < n
      ensures LazyContinues(line, k)
    {
      NoEndInsideName(line, name, digits, k);
    }
    LazyNameEndAt(line, 3, n);
  }

  /** The match from a start, given where the lazy name search and the
      currency marker stop. */
  lemma MatchAtStartOf(line: string, p: nat, e: nat, r: nat)
    requires p < |line| && IsNameChar(line[p]) && LazyNameEnd(line, p + 1) == Some(e)
    requires e <= |line| && PriceStart(line, SkipWhile(line, e, IsSepChar)) == Some(r)
    ensures MatchAtStart(line, p) == Some(MenuMatch(p, e, r, DecimalGroupEnd(line, r)))
  {
  }

  /** The name tried right after `- ` matches the whole line. */
  lemma RenderedMatchAtStart(line: string, name: string, digits: string)
    requires MenuLineShape(line, name, digits) && PlainMenuName(name) && IsDecimalGroup(digits)
    ensures MatchAtStart(line, 2) == Some(MenuMatch(2, 2 + |name|, 6 + |name|, |line|))
  {
    var n := 2 + |name|;
    RenderedLazyEnd(line, name, digits);
    assert line[2] == line[2..n][0];
    assert StartsAt(line, n + 4, digits);
    DecimalGroupEndOf(line, n + 4, digits);
    MatchAtStartOf(line, 2, n, n + 4);
  }

  /** A line that starts with `-` is matched by the first name start the
      backtracking tries, when that start succeeds. */
  lemma MatchMenuLineDash(line: string, m: MenuMatch)
    requires |line| > 0 && line[0] == '-' && MatchAtStart(line, SkipWhile(line, 1, IsSpace)) == Some(m)
    ensures MatchMenuLine(line) == Some(m)
  {
  }

  /** The pattern matches a `- name: RMdigits` line with the name group on
      the name and the price group on the digits. */
  lemma MatchRenderedMenuLine(line: string, name: string, digits: string)
    requires MenuLineShape(line, name, digits) && PlainMenuName(name) && IsDecimalGroup(digits)
    ensures MatchMenuLine(line) == Some(MenuMatch(2, 2 + |name|, 6 + |name|, |line|))
  {
    assert line[2] == line[2..2 + |name|][0];
    SkipWhileUnique(line, 1, IsSpace, 2);
    RenderedMatchAtStart(line, name, digits);
    MatchMenuLineDash(line, MenuMatch(2, 2 + |name|, 6 + |name|, |line|));
  }

  /** A rendered line is read back as the entry it was rendered from: the
      name, the price `parseFloat` reads from the digits, and the lower-cased
      words. */
  lemma MenuLineRoundTrip(name: string, digits: string)
    requires WellFormedMenuName(name) && IsDecimalGroup(digits) && DecimalGroupValue(digits) > 0.0
    ensures LineEntry(RenderMenuLine(name, digits))
      == Some((ToLower(name), MenuItem(name, DecimalGroupValue(digits), SplitSpace(ToLower(name)))))
  {
    var line := RenderMenuLine(name, digits);
    MenuLineLayout(name, digits);
    RenderedEntry(line, name, digits);
  }

  lemma RenderedEntry(line: string, name: string, digits: string)
    requires MenuLineShape(line, name, digits)
    requires WellFormedMenuName(name) && IsDecimalGroup(digits) && DecimalGroupValue(digits) > 0.0
    ensures LineEntry(line)
      == Some((ToLower(name), MenuItem(name, DecimalGroupValue(digits), SplitSpace(ToLower(name)))))
  {
    MatchRenderedMenuLine(line, name, digits);
    assert line[2 + |name|..2 + |name|][..0] == [];
    assert line[6 + |name|..|line|] == digits;
    TrimNoEdgeSpace(name);
    ParseFloatOfGroup(digits);
    LineEntryOfMatch(line);
  }

  /** What each line contributes, in line order. */
  function Contributions(lines: seq<string>): (cs: seq<Contribution>)
    ensures |cs| == |lines| && forall j | 0 <= j < |lines| :: cs[j] == LineEntry(lines[j])
  {
    seq(|lines|, j requires 0 <= j < |lines| => LineEntry(lines[j]))
  }

  /** The object filled from the contributions seen so far, as the `forEach`
      leaves it. */
  function Fill(cs: seq<Contribution>): MenuItems
  {
    if cs == [] then []
    else
      var menu := Fill(cs[..|cs| - 1]);
      match cs[|cs| - 1]
      case None => menu
      case Some((key, item)) => Put(menu, key, item)
  }

  /** `extractMenuFromPrompt(prompt)` */
  function MenuOf(prompt: string): (menu: MenuItems)
    ensures DistinctKeys(menu)
    ensures forall i | 0 <= i < |menu| :: WellFormedEntry(menu[i])
  {
    var cs := Contributions(SplitLines(prompt));
    forall j | 0 <= j < |cs| && cs[j].Some? ensures WellFormedEntry(cs[j].value) {
      LineEntryWellFormed(SplitLines(prompt)[j]);
    }
    FillWellFormed(cs);
    Fill(cs)
  }

  predicate YieldsKey(c: Contribution, key: string) {
    c.Some? && c.value.0 == key
  }

  /** Keys are distinct, and the entries are well formed when the
      contributions are. */
  lemma {:induction false} FillWellFormed(cs: seq<Contribution>)
    requires forall j | 0 <= j < |cs| && cs[j].Some? :: WellFormedEntry(cs[j].value)
    ensures DistinctKeys(Fill(cs))
    ensures forall i | 0 <= i < |Fill(cs)| :: WellFormedEntry(Fill(cs)[i])
  {
    if cs != [] {
      var init := cs[..|cs| - 1];
      assert forall j | 0 <= j < |init| :: init[j] == cs[j];
      FillWellFormed(init);
      if cs[|cs| - 1].Some? {
        PutDistinct(Fill(init), cs[|cs| - 1].value.0, cs[|cs| - 1].value.1);
        PutEntries(Fill(init), cs[|cs| - 1].value.0, cs[|cs| - 1].value.1);
      }
      var menu := Fill(cs);
      forall i | 0 <= i < |menu| ensures WellFormedEntry(menu[i]) {
        assert menu[i] in menu;
      }
    }
  }

  /** A key is absent exactly when no contribution has it. */
  lemma {:induction false} FillLookupAbsent(cs: seq<Contribution>, key: string)
    ensures Lookup(Fill(cs), key).None? <==> forall j | 0 <= j < |cs| :: !YieldsKey(cs[j], key)
  {
    if cs != [] {
      var n := |cs| - 1;
      var init := cs[..n];
      FillLookupAbsent(init, key);
      assert forall j | 0 <= j < n :: init[j] == cs[j];
      var before := Fill(init);
      if cs[n].Some? {
        var (k, item) := cs[n].value;
        assert Fill(cs) == Put(before, k, item);
        PutLookup(before, k, item, key);
      } else {
        assert Fill(cs) == before;
      }
    }
  }

  /** A present key holds the entry of the LAST contribution with that key: a
      later line overwrites an earlier one. */
  lemma {:induction false} FillLookupLast(cs: seq<Contribution>, key: string, j: nat)
    requires j < |cs| && YieldsKey(cs[j], key)
    requires forall j' | j < j' < |cs| :: !YieldsKey(cs[j'], key)
    ensures Lookup(Fill(cs), key) == Some(cs[j].value.1)
  {
    var n := |cs| - 1;
    var init := cs[..n];
    if j < n {
      assert YieldsKey(init[j], key) && forall j' | j < j' < n :: !YieldsKey(init[j'], key) by {
        assert forall j' | 0 <= j' < n :: init[j'] == cs[j'];
      }
      FillLookupLast(init, key, j);
      FillLookupOther(cs, key);
    } else {
      FillLookupNewest(cs, key);
    }
  }

  /** The last contribution's value is what a lookup of its key finds. */
  lemma FillLookupNewest(cs: seq<Contribution>, key: string)
    requires |cs| > 0 && YieldsKey(cs[|cs| - 1], key)
    ensures Lookup(Fill(cs), key) == Some(cs[|cs| - 1].value.1)
  {
    var n := |cs| - 1;
    var (k, item) := cs[n].value;
    assert Fill(cs) == Put(Fill(cs[..n]), k, item);
    PutLookup(Fill(cs[..n]), k, item, key);
  }

  /** A contribution with another key leaves the lookup of `key` alone. */
  lemma FillLookupOther(cs: seq<Contribution>, key: string)
    requires |cs| > 0 && !YieldsKey(cs[|cs| - 1], key)
    ensures Lookup(Fill(cs), key) == Lookup(Fill(cs[..|cs| - 1]), key)
  {
    var n := |cs| - 1;
    if cs[n].Some? {
      var (k, item) := cs[n].value;
      assert Fill(cs) == Put(Fill(cs[..n]), k, item);
      PutLookup(Fill(cs[..n]), k, item, key);
    }
  }

  /** The keys of the contributions, in line order, repetitions included. */
  function ContributedKeys(cs: seq<Contribution>): seq<string>
  {
    if cs == [] then []
    else
      var ks := ContributedKeys(cs[..|cs| - 1]);
      if cs[|cs| - 1].Some? then ks + [cs[|cs| - 1].value.0] else ks
  }

  /** Each key once, at the place of its first occurrence. */
  function FirstOccurrences(ks: seq<string>): seq<string>
  {
    if ks == [] then []
    else
      var d := FirstOccurrences(ks[..|ks| - 1]);
      if ks[|ks| - 1] in ks[..|ks| - 1] then d else d + [ks[|ks| - 1]]
  }

  lemma {:induction false} FirstOccurrencesSameElements(ks: seq<string>)
    ensures forall k :: k in FirstOccurrences(ks) <==> k in ks
  {
    if ks != [] {
      FirstOccurrencesSameElements(ks[..|ks| - 1]);
      assert ks == ks[..|ks| - 1] + [ks[|ks| - 1]];
    }
  }

  /** The object enumerates its keys in the order in which they were first
      contributed; a repeated key does not move. */
  lemma {:induction false} FillKeyOrder(cs: seq<Contribution>)
    ensures Keys(Fill(cs)) == FirstOccurrences(ContributedKeys(cs))
  {
    if cs != [] {
      var init := cs[..|cs| - 1];
      FillKeyOrder(init);
      var ks := ContributedKeys(init);
      FirstOccurrencesSameElements(ks);
      if cs[|cs| - 1].Some? {
        var k := cs[|cs| - 1].value.0;
        PutKeys(Fill(init), k, cs[|cs| - 1].value.1);
        assert (ks + [k])[..|ks + [k]| - 1] == ks;
      }
    }
  }

  /** One more line's contribution, as the `forEach` body applies it. */
  lemma FillStep(cs: seq<Contribution>, i: nat)
    requires i < |cs|
    ensures Fill(cs[..i + 1]) == match cs[i]
                                 case None => Fill(cs[..i])
                                 case Some((key, item)) => Put(Fill(cs[..i]), key, item)
  {
    assert cs[..i + 1][..i] == cs[..i];
  }

  /** What every menu built from a prompt satisfies: distinct keys,
      well-formed entries, and keys in the order of their first line. */
  lemma MenuOfFacts(prompt: string)
    ensures DistinctKeys(MenuOf(prompt))
    ensures forall i | 0 <= i < |MenuOf(prompt)| :: WellFormedEntry(MenuOf(prompt)[i])
    ensures Keys(MenuOf(prompt)) == FirstOccurrences(ContributedKeys(Contributions(SplitLines(prompt))))
  {
    FillKeyOrder(Contributions(SplitLines(prompt)));
  }

  /** `extractMenuFromPrompt(prompt)`: split the text into lines and fill the
      object line by line. */
  method ExtractMenuFromPrompt(prompt: string) returns (menuItems: MenuItems)
    ensures menuItems == MenuOf(prompt)
    ensures DistinctKeys(menuItems)
    ensures forall i | 0 <= i < |menuItems| :: WellFormedEntry(menuItems[i])
    ensures Keys(menuItems) == FirstOccurrences(ContributedKeys(Contributions(SplitLines(prompt))))
  {
    var lines := SplitLines(prompt);
    ghost var cs := Contributions(lines);
    menuItems := [];
    var i := 0;
    while i < |lines|
      invariant 0 <= i <= |lines|
      invariant menuItems == Fill(cs[..i])
    {
      var entry := LineEntry(lines[i]);
      assert entry == cs[i];
      FillStep(cs, i);
      if entry.Some? {
        menuItems := Put(menuItems, entry.value.0, entry.value.1);
      }
      i := i + 1;
    }
    assert cs[..i] == cs;
    MenuOfFacts(prompt);
  }
}

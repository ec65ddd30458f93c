/**
 * The chunker `split_text(text, max_chunk=500)`: newlines become spaces, the
 * text is cut into units at every ". ", and the units are packed greedily into
 * chunks, each unit followed by ". ", a chunk being closed (and stripped) as
 * soon as its length plus the next unit's length exceeds `max_chunk` (the
 * ". " after the unit is not counted, so a chunk can reach `max_chunk + 2`).
 *
 * `Groups` is the specification: the list of units each chunk receives. The
 * method `SplitText` runs the source's loop and is proved to return the
 * stripped chunk of each group; the lemmas state what the packing guarantees.
 */
module Chunker {
  import opened PyStrings

  /** The default `max_chunk`, which is the value `summarize_text` uses. */
  const DefaultMaxChunk: int := 500

  /** The units of `text`: `text.replace('\n', ' ').split('. ')`. */
  function Units(text: string): (units: seq<string>)
    ensures |units| >= 1
  {
    SplitOnDelimiter(ReplaceNewlines(text))
  }

  /** Joined back with ". ", the units give the text with its newlines turned
      into spaces; no unit holds a newline or the delimiter. */
  lemma UnitsProperties(text: string)
    ensures JoinWithDelimiter(Units(text)) == ReplaceNewlines(text)
    ensures UnitsNoNewline(Units(text))
    ensures forall i :: 0 <= i < |Units(text)| ==> NoDelimiter(Units(text)[i])
  {
    var normalized := ReplaceNewlines(text);
    JoinSplit(normalized);
    SplitNoNewline(normalized);
    SplitNoDelimiter(normalized);
  }

  /** The text of a chunk under construction after the units of `g` were added
      to an empty chunk, each followed by ". ". */
  function Terminated(g: seq<string>): (s: string)
    ensures |s| >= 2 * |g|
  {
    if g == [] then "" else Terminated(g[..|g| - 1]) + g[|g| - 1] + Delimiter
  }

  /** The units in order, group after group. */
  function Flatten(groups: seq<seq<string>>): seq<string> {
    if groups == [] then [] else Flatten(groups[..|groups| - 1]) + groups[|groups| - 1]
  }

  /** One step of the packing loop: `unit` joins the open chunk (the last
      group) when the open chunk's length plus the unit's length is at most
      `maxChunk`; otherwise the open chunk is closed and `unit` opens a new one. */
  function Pack(groups: seq<seq<string>>, unit: string, maxChunk: int): (next: seq<seq<string>>)
    requires groups != []
    ensures |groups| <= |next| <= |groups| + 1
    ensures next[|next| - 1] != []
  {
    var current := groups[|groups| - 1];
    if |Terminated(current)| + |unit| <= maxChunk then groups[..|groups| - 1] + [current + [unit]]
    else groups + [[unit]]
  }

  /** The units each chunk receives, in order; the last group is the chunk
      that is still open when the units run out. */
  function Groups(units: seq<string>, maxChunk: int): (groups: seq<seq<string>>)
    ensures 1 <= |groups| <= |units| + 1
    ensures units != [] ==> groups[|groups| - 1] != []
    decreases |units|
  {
    if units == [] then [[]]
    else Pack(Groups(units[..|units| - 1], maxChunk), units[|units| - 1], maxChunk)
  }

  /** The chunk emitted for a group: its text, stripped. */
  function ChunkOf(g: seq<string>): string {
    Strip(Terminated(g))
  }

  function ChunksOf(groups: seq<seq<string>>): seq<string> {
    seq(|groups|, i requires 0 <= i < |groups| => ChunkOf(groups[i]))
  }

  /** `split_text(text, max_chunk)`. */
  method SplitText(text: string, maxChunk: int) returns (chunks: seq<string>)
    ensures chunks == ChunksOf(Groups(Units(text), maxChunk))
    ensures |chunks| >= 1
    ensures forall i :: 0 <= i < |chunks| ==> NoNewline(chunks[i])
    ensures forall i :: 0 <= i < |chunks| ==>
              (chunks[i] == [] <==> i == 0 && |Units(text)[0]| > maxChunk)
    ensures forall i :: 0 <= i < |chunks| && chunks[i] != [] ==> chunks[i][|chunks[i]| - 1] == '.'
  {
    var normalized := ReplaceNewlines(text);
    var units := SplitOnDelimiter(normalized);
    chunks := [];
    var current := "";
    ghost var closed: seq<seq<string>> := [];
    ghost var open: seq<string> := [];
    for i := 0 to |units|
      invariant closed + [open] == Groups(units[..i], maxChunk)
      invariant chunks == ChunksOf(closed)
      invariant current == Terminated(open)
    {
      var unit := units[i];
      GroupsStep(units, i, maxChunk);
      PackOpen(closed, open, unit, maxChunk);
      if |current| + |unit| <= maxChunk {
        current := current + unit + Delimiter;
        TerminatedSnoc(open, unit);
        open := open + [unit];
      } else {
        ChunksOfSnoc(closed, open);
        chunks := chunks + [Strip(current)];
        closed := closed + [open];
        current := unit + Delimiter;
        TerminatedSingle(unit);
        open := [unit];
      }
    }
    ChunksOfSnoc(closed, open);
    chunks := chunks + [Strip(current)];
    assert units[..|units|] == units;
    UnitsProperties(text);
    PackedChunks(units, maxChunk);
  }

  /** The packing of one more unit is one more step of `Pack`. */
  lemma GroupsStep(units: seq<string>, i: nat, maxChunk: int)
    requires i < |units|
    ensures Groups(units[..i + 1], maxChunk) == Pack(Groups(units[..i], maxChunk), units[i], maxChunk)
  {
    assert units[..i + 1][..i] == units[..i];
  }

  /** `Pack` seen from the closed groups and the open one. */
  lemma PackOpen(closed: seq<seq<string>>, open: seq<string>, unit: string, maxChunk: int)
    ensures Pack(closed + [open], unit, maxChunk) ==
      if |Terminated(open)| + |unit| <= maxChunk then closed + [open + [unit]]
      else (closed + [open]) + [[unit]]
  {
    assert (closed + [open])[..|closed|] == closed;
  }

  lemma TerminatedSnoc(g: seq<string>, unit: string)
    ensures Terminated(g + [unit]) == Terminated(g) + unit + Delimiter
  {
    assert (g + [unit])[..|g|] == g;
  }

  lemma TerminatedSingle(unit: string)
    ensures Terminated([unit]) == unit + Delimiter
  {
    assert [unit][..0] == [];
  }

  lemma ChunksOfSnoc(groups: seq<seq<string>>, g: seq<string>)
    ensures ChunksOf(groups + [g]) == ChunksOf(groups) + [ChunkOf(g)]
  {
  }

  // ---------------------------------------------------------------------------
  // What the packing guarantees

  /** No group other than the first is empty, and a chunk is closed only when
      the next unit does not fit: the closed chunk's length plus the length of
      the unit opening the next chunk exceeds `maxChunk`. */
  predicate Greedy(groups: seq<seq<string>>, maxChunk: int) {
    forall i :: 1 <= i < |groups| ==>
      groups[i] != [] && |Terminated(groups[i - 1])| + |groups[i][0]| > maxChunk
  }

  /** The size bounds of one group (`first` tells whether it is the first):
      when its last unit joined an open chunk (it is the first group, or it
      holds two or more units) its text has at most `maxChunk + 2` characters;
      when it starts with a unit longer than `maxChunk`, that unit is alone. */
  predicate GroupBounded(g: seq<string>, first: bool, maxChunk: int) {
    && (g != [] && (first || |g| >= 2) ==> |Terminated(g)| <= maxChunk + 2)
    && (g != [] && |g[0]| > maxChunk ==> |g| == 1)
  }

  /** Every group keeps the size bounds of `GroupBounded`. */
  predicate Bounded(groups: seq<seq<string>>, maxChunk: int) {
    forall i :: 0 <= i < |groups| ==> GroupBounded(groups[i], i == 0, maxChunk)
  }

  /** The text of a non-empty group is at least as long as its first unit and
      the delimiter after it. */
  lemma {:induction false} TerminatedFirst(g: seq<string>)
    requires g != []
    ensures |Terminated(g)| >= |g[0]| + 2
    decreases |g|
  {
    if |g| > 1 {
      var init := g[..|g| - 1];
      assert init[0] == g[0];
      TerminatedFirst(init);
    } else {
      assert g[..0] == [];
    }
  }

  lemma PackFlatten(groups: seq<seq<string>>, unit: string, maxChunk: int)
    requires groups != []
    ensures Flatten(Pack(groups, unit, maxChunk)) == Flatten(groups) + [unit]
  {
    var k := |groups| - 1;
    var current := groups[k];
    var next := Pack(groups, unit, maxChunk);
    assert groups == groups[..k] + [current];
    assert Flatten(groups) == Flatten(groups[..k]) + current;
    if |Terminated(current)| + |unit| <= maxChunk {
      assert next[..k] == groups[..k];
    } else {
      assert next[..k + 1] == groups;
    }
  }

  lemma PackGreedy(groups: seq<seq<string>>, unit: string, maxChunk: int)
    requires groups != [] && Greedy(groups, maxChunk)
    ensures Greedy(Pack(groups, unit, maxChunk), maxChunk)
  {
    var k := |groups| - 1;
    var next := Pack(groups, unit, maxChunk);
    if |Terminated(groups[k])| + |unit| <= maxChunk {
      assert forall i :: 0 <= i < k ==> next[i] == groups[i];
      assert k > 0 ==> next[k][0] == groups[k][0];
    } else {
      assert forall i :: 0 <= i <= k ==> next[i] == groups[i];
    }
  }

  lemma PackBounded(groups: seq<seq<string>>, unit: string, maxChunk: int)
    requires groups != [] && Bounded(groups, maxChunk)
    ensures Bounded(Pack(groups, unit, maxChunk), maxChunk)
  {
    var k := |groups| - 1;
    var current := groups[k];
    var next := Pack(groups, unit, maxChunk);
    var fits := |Terminated(current)| + |unit| <= maxChunk;
    var last := if fits then current + [unit] else [unit];
    assert next == (if fits then groups[..k] else groups) + [last];
    JoinedGroupBounded(current, unit, k == 0, maxChunk);
    forall i | 0 <= i < |next| ensures GroupBounded(next[i], i == 0, maxChunk) {
      if i < |next| - 1 {
        assert next[i] == groups[i];
      }
    }
  }

  /** The group that receives `unit` keeps the size bounds. */
  lemma JoinedGroupBounded(current: seq<string>, unit: string, first: bool, maxChunk: int)
    requires GroupBounded(current, first, maxChunk)
    ensures |Terminated(current)| + |unit| <= maxChunk ==> GroupBounded(current + [unit], first, maxChunk)
    ensures GroupBounded([unit], false, maxChunk)
  {
    TerminatedSnoc(current, unit);
    TerminatedSnoc([], unit);
    if current != [] {
      TerminatedFirst(current);
      assert (current + [unit])[0] == current[0];
    }
  }

  /** Coverage and order: every unit is placed in exactly one group and the
      groups follow unit order. */
  lemma {:induction false} GroupsCoverUnits(units: seq<string>, maxChunk: int)
    ensures Flatten(Groups(units, maxChunk)) == units
    decreases |units|
  {
    if units != [] {
      var init := units[..|units| - 1];
      GroupsCoverUnits(init, maxChunk);
      PackFlatten(Groups(init, maxChunk), units[|units| - 1], maxChunk);
      assert init + [units[|units| - 1]] == units;
    }
  }

  /** The packing is greedy: only the first group can be empty, and every chunk
      was closed because the next unit did not fit. */
  lemma {:induction false} GroupsGreedy(units: seq<string>, maxChunk: int)
    ensures Greedy(Groups(units, maxChunk), maxChunk)
    decreases |units|
  {
    if units != [] {
      var init := units[..|units| - 1];
      GroupsGreedy(init, maxChunk);
      PackGreedy(Groups(init, maxChunk), units[|units| - 1], maxChunk);
    }
  }

  /** The size bounds of `Bounded` hold for every packing. */
  lemma {:induction false} GroupsBounded(units: seq<string>, maxChunk: int)
    ensures Bounded(Groups(units, maxChunk), maxChunk)
    decreases |units|
  {
    if units != [] {
      var init := units[..|units| - 1];
      GroupsBounded(init, maxChunk);
      PackBounded(Groups(init, maxChunk), units[|units| - 1], maxChunk);
    }
  }

  /** The first group is empty exactly when there are no units or the first
      unit alone is longer than `maxChunk`; all later groups are non-empty. */
  lemma {:induction false} GroupsShape(units: seq<string>, maxChunk: int)
    ensures forall i :: 1 <= i < |Groups(units, maxChunk)| ==> Groups(units, maxChunk)[i] != []
    ensures Groups(units, maxChunk)[0] == [] <==> units == [] || |units[0]| > maxChunk
    decreases |units|
  {
    GroupsGreedy(units, maxChunk);
    if units != [] {
      var init, unit := units[..|units| - 1], units[|units| - 1];
      var previous := Groups(init, maxChunk);
      var next := Pack(previous, unit, maxChunk);
      assert Groups(units, maxChunk) == next;
      var k := |previous| - 1;
      var fits := |Terminated(previous[k])| + |unit| <= maxChunk;
      if init == [] {
        assert previous == [[]];
        assert unit == units[0];
        assert Terminated(previous[k]) == "";
        if fits {
          assert previous[k] + [unit] == [unit];
          assert next == [[unit]];
        } else {
          assert next == [[], [unit]];
        }
      } else {
        GroupsShape(init, maxChunk);
        assert init[0] == units[0];
        assert previous[k] != [];
        if fits {
          assert next == previous[..k] + [previous[k] + [unit]];
          assert next[0] == if k == 0 then previous[0] + [unit] else previous[0];
        } else {
          assert next == previous + [[unit]];
          assert next[0] == previous[0];
        }
      }
    }
  }

  /** Every unit of the group is free of newlines. */
  predicate UnitsNoNewline(g: seq<string>) {
    forall j :: 0 <= j < |g| ==> NoNewline(g[j])
  }

  /** Every unit in every group is free of newlines when every input unit is. */
  lemma {:induction false} GroupsNoNewline(units: seq<string>, maxChunk: int)
    requires UnitsNoNewline(units)
    ensures forall i :: 0 <= i < |Groups(units, maxChunk)| ==> UnitsNoNewline(Groups(units, maxChunk)[i])
    decreases |units|
  {
    if units != [] {
      var init, unit := units[..|units| - 1], units[|units| - 1];
      assert UnitsNoNewline(init) by {
        forall j | 0 <= j < |init| ensures NoNewline(init[j]) { assert init[j] == units[j]; }
      }
      GroupsNoNewline(init, maxChunk);
      var groups := Groups(init, maxChunk);
      var k := |groups| - 1;
      var next := Pack(groups, unit, maxChunk);
      var last := if |Terminated(groups[k])| + |unit| <= maxChunk then groups[k] + [unit] else [unit];
      assert next == (if |Terminated(groups[k])| + |unit| <= maxChunk then groups[..k] else groups) + [last];
      assert UnitsNoNewline(last) by {
        forall j | 0 <= j < |last| ensures NoNewline(last[j]) {
          if j < |last| - 1 { assert last[j] == groups[k][j]; }
        }
      }
      forall i | 0 <= i < |next| ensures UnitsNoNewline(next[i]) {
        if i < |next| - 1 { assert next[i] == groups[i]; }
      }
    }
  }

  /** A chunk is empty exactly when its group is; a non-empty group yields a
      chunk that ends with '.', no longer than the group's text. */
  lemma ChunkOfGroup(g: seq<string>)
    ensures ChunkOf(g) == [] <==> g == []
    ensures g != [] ==> ChunkOf(g)[|ChunkOf(g)| - 1] == '.'
    ensures |ChunkOf(g)| <= |Terminated(g)|
  {
    if g != [] {
      var init, u := g[..|g| - 1], g[|g| - 1];
      assert g == init + [u];
      TerminatedSnoc(init, u);
      StripPeriodSpace(Terminated(init) + u);
    }
  }

  /** Groups of newline-free units have newline-free text. */
  lemma {:induction false} TerminatedNoNewline(g: seq<string>)
    requires UnitsNoNewline(g)
    ensures NoNewline(Terminated(g))
    decreases |g|
  {
    if g != [] {
      var init := g[..|g| - 1];
      assert UnitsNoNewline(init) by {
        forall j | 0 <= j < |init| ensures NoNewline(init[j]) { assert init[j] == g[j]; }
      }
      TerminatedNoNewline(init);
      var a, u := Terminated(init), g[|g| - 1];
      var s := a + u + Delimiter;
      forall i | 0 <= i < |s| ensures s[i] != '\n' {
        if i < |a| { assert s[i] == a[i]; }
        else if i < |a| + |u| { assert s[i] == u[i - |a|]; }
      }
    }
  }

  /** The chunk of a group of newline-free units is newline-free; it is empty
      exactly when the group is, and otherwise ends with '.'. */
  lemma ChunkFacts(g: seq<string>)
    requires UnitsNoNewline(g)
    ensures NoNewline(ChunkOf(g))
    ensures ChunkOf(g) == [] <==> g == []
    ensures g != [] ==> ChunkOf(g)[|ChunkOf(g)| - 1] == '.'
  {
    ChunkOfGroup(g);
    TerminatedNoNewline(g);
    StripNoNewline(Terminated(g));
  }

  /** The chunks of the packing of newline-free units: at least one, none
      with a newline, each ending with '.' except the first, which is empty
      exactly when the first unit alone does not fit. */
  lemma PackedChunks(units: seq<string>, maxChunk: int)
    requires units != [] && UnitsNoNewline(units)
    ensures |ChunksOf(Groups(units, maxChunk))| >= 1
    ensures forall i :: 0 <= i < |ChunksOf(Groups(units, maxChunk))| ==>
              NoNewline(ChunksOf(Groups(units, maxChunk))[i])
    ensures forall i :: 0 <= i < |ChunksOf(Groups(units, maxChunk))| ==>
              (ChunksOf(Groups(units, maxChunk))[i] == [] <==> i == 0 && |units[0]| > maxChunk)
    ensures forall i :: 0 <= i < |ChunksOf(Groups(units, maxChunk))| && ChunksOf(Groups(units, maxChunk))[i] != [] ==>
              ChunksOf(Groups(units, maxChunk))[i][|ChunksOf(Groups(units, maxChunk))[i]| - 1] == '.'
  {
    var groups := Groups(units, maxChunk);
    var chunks := ChunksOf(groups);
    GroupsShape(units, maxChunk);
    GroupsNoNewline(units, maxChunk);
    forall i | 0 <= i < |chunks|
      ensures NoNewline(chunks[i])
      ensures chunks[i] == [] <==> i == 0 && |units[0]| > maxChunk
      ensures chunks[i] != [] ==> chunks[i][|chunks[i]| - 1] == '.'
    {
      assert chunks[i] == ChunkOf(groups[i]);
      ChunkFacts(groups[i]);
    }
  }

  /** Chunk sizes: a chunk whose last unit joined an open chunk (the first
      chunk, or any chunk of two or more units) has at most `maxChunk + 2`
      characters; a chunk opened by a unit longer than `maxChunk` is that unit
      alone, followed by ". " and stripped. */
  lemma ChunkSizes(units: seq<string>, maxChunk: int)
    ensures var groups := Groups(units, maxChunk);
      forall i :: 0 <= i < |groups| && groups[i] != [] && (i == 0 || |groups[i]| >= 2) ==>
        |ChunksOf(groups)[i]| <= maxChunk + 2
    ensures var groups := Groups(units, maxChunk);
      forall i :: 0 <= i < |groups| && groups[i] != [] && |groups[i][0]| > maxChunk ==>
        groups[i] == [groups[i][0]] && ChunksOf(groups)[i] == Strip(groups[i][0] + ". ")
  {
    var groups := Groups(units, maxChunk);
    GroupsBounded(units, maxChunk);
    forall i | 0 <= i < |groups| && groups[i] != []
      ensures (i == 0 || |groups[i]| >= 2) ==> |ChunksOf(groups)[i]| <= maxChunk + 2
      ensures |groups[i][0]| > maxChunk ==>
        groups[i] == [groups[i][0]] && ChunksOf(groups)[i] == Strip(groups[i][0] + ". ")
    {
      assert GroupBounded(groups[i], i == 0, maxChunk);
      assert ChunksOf(groups)[i] == ChunkOf(groups[i]);
      GroupChunkSize(groups[i], i == 0, maxChunk);
    }
  }

  /** The chunk-size facts of one group that keeps the size bounds. */
  lemma GroupChunkSize(g: seq<string>, first: bool, maxChunk: int)
    requires g != [] && GroupBounded(g, first, maxChunk)
    ensures (first || |g| >= 2) ==> |ChunkOf(g)| <= maxChunk + 2
    ensures |g[0]| > maxChunk ==> g == [g[0]] && ChunkOf(g) == Strip(g[0] + ". ")
  {
    if |g[0]| <= maxChunk {
      ChunkOfGroup(g);
    } else {
      var u := g[0];
      assert g == [u];
      TerminatedSnoc([], u);
      assert [] + [u] == [u];
      var t := u + ". ";
      assert Terminated([u]) == t;
      assert ChunkOf(g) == Strip(t);
    }
  }

  /** The chunks reconstitute the text: their units, in order, joined with
      ". ", give back the text with its newlines turned into spaces. */
  lemma ChunksReconstitute(text: string, maxChunk: int)
    ensures JoinWithDelimiter(Flatten(Groups(Units(text), maxChunk))) == ReplaceNewlines(text)
  {
    GroupsCoverUnits(Units(text), maxChunk);
    UnitsProperties(text);
  }

  // ---------------------------------------------------------------------------
  // Edge cases

  /** The empty text gives the single chunk ".": its one unit is "", which is
      added as ". " and stripped. With a negative `maxChunk` even that unit
      does not fit, and an empty chunk comes first. */
  lemma EmptyText(maxChunk: int)
    ensures maxChunk >= 0 ==> ChunksOf(Groups(Units(""), maxChunk)) == ["."]
    ensures maxChunk < 0 ==> ChunksOf(Groups(Units(""), maxChunk)) == ["", "."]
  {
    assert Units("") == [""] by {
      assert ReplaceNewlines("") == "";
      assert SplitOnDelimiter("") == [""];
    }
    assert Groups([""], maxChunk) == Pack([[]], "", maxChunk) by {
      assert [""][..0] == [];
    }
    SingleUnitChunks("");
    StripPeriodSpace("");
    assert Strip("" + Delimiter) == ".";
  }

  /** The chunks of groups made of one unit: the unit followed by ". ",
      stripped, after an empty chunk when the unit opened a new group. */
  lemma SingleUnitChunks(unit: string)
    ensures ChunksOf([[unit]]) == [Strip(unit + Delimiter)]
    ensures ChunksOf([[], [unit]]) == ["", Strip(unit + Delimiter)]
  {
    TerminatedSingle(unit);
    var c := ChunkOf([unit]);
    assert ChunksOf([[unit]]) == [c] by {
      assert ChunksOf([[unit]])[0] == c;
    }
    assert ChunksOf([[], [unit]]) == ["", c] by {
      var two := ChunksOf([[], [unit]]);
      assert two[0] == ChunkOf([]) == "";
      assert two[1] == c;
    }
  }

  /** The text of a non-empty group is its units joined with ". ", followed
      by ". ". */
  lemma {:induction false} TerminatedJoin(g: seq<string>)
    requires g != []
    ensures Terminated(g) == JoinWithDelimiter(g) + Delimiter
    decreases |g|
  {
    var init, last := g[..|g| - 1], g[|g| - 1];
    assert g == init + [last];
    if init == [] {
      assert Terminated(init) == "";
      assert g == [last];
    } else {
      TerminatedJoin(init);
      JoinSnoc(init, last);
    }
  }

  /** When all units together fit (their text, without the final ". ", has
      at most `maxChunk` characters), no chunk is closed early: there is one
      group holding every unit. */
  lemma {:induction false} GroupsAllFit(units: seq<string>, maxChunk: int)
    requires |Terminated(units)| <= maxChunk + 2
    ensures Groups(units, maxChunk) == [units]
    decreases |units|
  {
    if units != [] {
      var init, last := units[..|units| - 1], units[|units| - 1];
      GroupsAllFit(init, maxChunk);
      PackOpen([], init, last, maxChunk);
      assert [] + [init] == [init];
      assert init + [last] == units;
    }
  }

  /** A text of at most `maxChunk` characters is one chunk: the text with its
      newlines turned into spaces, followed by ". ", stripped. */
  lemma ShortText(text: string, maxChunk: int)
    requires |text| <= maxChunk
    ensures ChunksOf(Groups(Units(text), maxChunk)) == [Strip(ReplaceNewlines(text) + ". ")]
  {
    var units := Units(text);
    UnitsProperties(text);
    TerminatedJoin(units);
    GroupsAllFit(units, maxChunk);
    var t := ReplaceNewlines(text) + ". ";
    assert Terminated(units) == t;
    assert ChunkOf(units) == Strip(t);
  }

  /** A text without newline and without ". " that is longer than `maxChunk`
      gives two chunks: an empty one, then the whole text with ". " appended
      and stripped. */
  lemma OversizedSingleUnit(text: string, maxChunk: int)
    requires NoNewline(text) && NoDelimiter(text)
    requires |text| > maxChunk
    ensures ChunksOf(Groups(Units(text), maxChunk)) == ["", Strip(text + ". ")]
  {
    OversizedGroups(text, maxChunk);
    SingleUnitChunks(text);
  }

  /** The one unit of such a text does not fit even into the empty first
      chunk, which is closed empty. */
  lemma OversizedGroups(text: string, maxChunk: int)
    requires NoNewline(text) && NoDelimiter(text)
    requires |text| > maxChunk
    ensures Groups(Units(text), maxChunk) == [[], [text]]
  {
    assert ReplaceNewlines(text) == text;
    SplitWithoutDelimiter(text);
    assert Units(text) == [text];
    GroupsStep([text], 0, maxChunk);
    PackOpen([], [], text, maxChunk);
    assert [text][..1] == [text] && [text][..0] == [];
  }
}

/**
  load_synthetic_data.py: fills an inventory table with generated fruit
  records. `generate_descriptions` grows a set of names from chat replies
  until it holds 50, sorts it, then merges name-to-description batches until
  50 names are described; `generate_unique_ids` keeps the first `n` clean
  lines of a reply; `insert_synthetic_data` builds one record per described
  name with random draws, inserts it unless it clashes, then embeds every
  row lacking an embedding and stores a translation on every row.

  Chat replies, the key/value pairs the description pattern matched in each
  reply, the random draws and the embedding and translation services are
  inputs. The chat loops never end while the service keeps answering below
  the target; here the replies are a finite list and running out of them is
  reported as an error.
 */
module Synthetic {
  import opened Wrappers
  import opened Text
  import opened Store
  import opened Dict

  /** The number of distinct names and of described names both loops wait for. */
  const Target: nat := 50

  /** Where a `while len(...) < Target` loop over a sequence of rounds
      stops, given the size after each round (`counts[k]` after `k`
      rounds): the first `n` from `k` on whose size reaches `Target`, or the
      last round. */
  function FirstReaching(counts: seq<nat>, k: nat): (n: nat)
    requires k < |counts|
    ensures k <= n < |counts|
    decreases |counts| - k
  {
    if k == |counts| - 1 || counts[k] >= Target then k else FirstReaching(counts, k + 1)
  }

  /** Every round before the stop stays below `Target`; the stop round
      reaches it or is the last. */
  lemma {:induction false} FirstReachingStop(counts: seq<nat>, k: nat)
    requires k < |counts|
    requires forall j :: 0 <= j < k ==> counts[j] < Target
    ensures forall j :: 0 <= j < FirstReaching(counts, k) ==> counts[j] < Target
    ensures counts[FirstReaching(counts, k)] >= Target || FirstReaching(counts, k) == |counts| - 1
    decreases |counts| - k
  {
    if !(k == |counts| - 1 || counts[k] >= Target) {
      FirstReachingStop(counts, k + 1);
    }
  }

  // ------------------------------------------------------------ names phase

  /** The stripped pieces of one reply split at ", ". */
  function Pieces(reply: string): set<string> {
    StrippedAll(Split(reply, ", "))
  }

  /** The stripped forms of the given pieces. */
  function StrippedAll(pieces: seq<string>): set<string> {
    if pieces == [] then {}
    else StrippedAll(pieces[..|pieces| - 1]) + {Strip(pieces[|pieces| - 1])}
  }

  lemma {:induction false} StrippedAllStripped(pieces: seq<string>)
    ensures forall x :: x in StrippedAll(pieces) ==> IsStripped(x)
  {
    if pieces != [] {
      StrippedAllStripped(pieces[..|pieces| - 1]);
      var _, _ := StripIsTrimmedSlice(pieces[|pieces| - 1]);
    }
  }

  /** The name set after the first `k` replies. */
  function NamesAfter(replies: seq<string>, k: nat): set<string>
    requires k <= |replies|
  {
    if k == 0 then {} else NamesAfter(replies, k - 1) + Pieces(replies[k - 1])
  }

  /** The number of replies the name loop consumes: the first `k` after
      which the set holds `Target` names, or all of them. */
  function NameRounds(replies: seq<string>, k: nat): (n: nat)
    requires k <= |replies|
    ensures k <= n <= |replies|
  {
    FirstReaching(NameCounts(replies), k)
  }

  /** `len(all_fruits)` after each number of replies. */
  function NameCounts(replies: seq<string>): (c: seq<nat>)
    ensures |c| == |replies| + 1
  {
    seq(|replies| + 1, j requires 0 <= j <= |replies| => |NamesAfter(replies, j)|)
  }

  lemma NameCountsAre(replies: seq<string>)
    ensures forall j :: 0 <= j <= |replies| ==> NameCounts(replies)[j] == |NamesAfter(replies, j)|
  {
  }

  /** The name set only grows. */
  lemma {:induction false} NamesGrow(replies: seq<string>, j: nat, k: nat)
    requires j <= k <= |replies|
    ensures NamesAfter(replies, j) <= NamesAfter(replies, k)
    decreases k
  {
    if j < k {
      NamesGrow(replies, j, k - 1);
    }
  }

  /** Every name in the set is stripped. */
  lemma {:induction false} NamesStripped(replies: seq<string>, k: nat)
    requires k <= |replies|
    ensures forall x :: x in NamesAfter(replies, k) ==> IsStripped(x)
  {
    if k > 0 {
      NamesStripped(replies, k - 1);
      StrippedAllStripped(Split(replies[k - 1], ", "));
    }
  }

  /** The name loop stops at the first reply that brings the set to
      `Target` names, or when the replies run out. */
  lemma NameRoundsStop(replies: seq<string>, k: nat)
    requires k <= |replies|
    requires forall j :: 0 <= j < k ==> |NamesAfter(replies, j)| < Target
    ensures forall j :: 0 <= j < NameRounds(replies, k) ==> |NamesAfter(replies, j)| < Target
    ensures |NamesAfter(replies, NameRounds(replies, k))| >= Target
            || NameRounds(replies, k) == |replies|
  {
    NameCountsAre(replies);
    FirstReachingStop(NameCounts(replies), k);
  }

  lemma SubsetSize(a: set<string>, b: set<string>)
    requires a <= b
    ensures |a| <= |b|
  {
    assert b == a + (b - a);
  }

  /** Because the set only grows, the loop runs out of replies before
      reaching `Target` exactly when all the replies together give fewer. */
  lemma NamesRunOut(replies: seq<string>, n: nat)
    requires n <= |replies|
    requires |NamesAfter(replies, n)| >= Target || n == |replies|
    ensures |NamesAfter(replies, n)| < Target <==> |NamesAfter(replies, |replies|)| < Target
  {
    NamesGrow(replies, n, |replies|);
    SubsetSize(NamesAfter(replies, n), NamesAfter(replies, |replies|));
  }

  predicate StrictlySorted(s: seq<string>) {
    forall i, j :: 0 <= i < j < |s| ==> Below(s[i], s[j]) && s[i] != s[j]
  }

  /** `x` put into its place in a sorted list that lacks it. */
  function InsertSorted(s: seq<string>, x: string): (r: seq<string>)
    requires StrictlySorted(s) && x !in s
    ensures StrictlySorted(r) && |r| == |s| + 1
    ensures forall y :: y in r <==> y in s || y == x
  {
    if s == [] then [x]
    else if Below(x, s[0]) then
      assert forall j :: 0 <= j < |s| ==> Below(x, s[j]) && x != s[j] by {
        forall j | 0 <= j < |s| ensures Below(x, s[j]) && x != s[j] {
          if j > 0 { BelowTransitive(x, s[0], s[j]); }
        }
      }
      [x] + s
    else
      var tail := InsertSorted(s[1..], x);
      assert Below(s[0], x) && s[0] != x by { BelowTotal(x, s[0]); }
      assert forall y :: y in tail ==> Below(s[0], y) && s[0] != y by {
        forall y | y in tail ensures Below(s[0], y) && s[0] != y {
          if y != x {
            var j :| 0 <= j < |s[1..]| && s[1..][j] == y;
            assert s[j + 1] == y;
          }
        }
      }
      assert forall y :: y in s <==> y == s[0] || y in s[1..] by {
        assert s == [s[0]] + s[1..];
      }
      [s[0]] + tail
  }

  /** `sorted(list(names))`: every name once, in ascending order. */
  method SortNames(names: set<string>) returns (sorted: seq<string>)
    ensures StrictlySorted(sorted) && |sorted| == |names|
    ensures forall x :: x in sorted <==> x in names
  {
    sorted := [];
    var rest := names;
    while rest != {}
      invariant rest <= names && StrictlySorted(sorted)
      invariant |sorted| + |rest| == |names|
      invariant forall x :: x in sorted <==> x in names && x !in rest
      decreases |rest|
    {
      var x :| x in rest;
      sorted := InsertSorted(sorted, x);
      rest := rest - {x};
    }
  }

  /** One round of the first loop of `generate_descriptions`: split the
      reply at ", " and add each piece, stripped, unless the unstripped piece
      is already in the set. As the set only ever holds stripped names, a
      piece found there is its own stripped form, so the check never skips a
      new name. */
  method AddPieces(names: set<string>, reply: string) returns (grown: set<string>)
    requires forall x :: x in names ==> IsStripped(x)
    ensures grown == names + Pieces(reply)
    ensures forall x :: x in grown ==> IsStripped(x)
  {
    var fruits := Split(reply, ", ");
    grown := names;
    var j := 0;
    while j < |fruits|
      invariant j <= |fruits|
      invariant grown == names + StrippedAll(fruits[..j])
      invariant forall x :: x in grown ==> IsStripped(x)
    {
      var fruit := fruits[j];
      assert fruits[..j + 1][..j] == fruits[..j];
      if fruit !in grown {
        ghost var _, _ := StripIsTrimmedSlice(fruit);
        grown := grown + {Strip(fruit)};
      } else {
        StripFixesStripped(fruit);
      }
      j := j + 1;
    }
    assert fruits[..j] == fruits;
  }

  /** The first loop of `generate_descriptions`: while the set holds fewer
      than `Target` names and replies remain, add the pieces of the next
      reply. */
  method GatherNames(replies: seq<string>) returns (all: set<string>, used: nat)
    ensures used == NameRounds(replies, 0)
    ensures all == NamesAfter(replies, used)
    ensures forall x :: x in all ==> IsStripped(x)
  {
    all := {};
    used := 0;
    while |all| < Target && used < |replies|
      invariant used <= |replies|
      invariant all == NamesAfter(replies, used)
      invariant NameRounds(replies, 0) == NameRounds(replies, used)
      invariant forall x :: x in all ==> IsStripped(x)
      decreases |replies| - used
    {
      all := AddPieces(all, replies[used]);
      used := used + 1;
    }
  }

  /** The names phase of `generate_descriptions`: gather, then sort.
      `exhausted` reports that the replies ran out first. */
  method CollectNames(replies: seq<string>) returns (names: seq<string>, used: nat, exhausted: bool)
    ensures used == NameRounds(replies, 0)
    ensures forall k :: 0 <= k < used ==> |NamesAfter(replies, k)| < Target
    ensures exhausted <==> |NamesAfter(replies, |replies|)| < Target
    ensures exhausted ==> used == |replies|
    ensures StrictlySorted(names)
    ensures forall x :: x in names <==> x in NamesAfter(replies, used)
    ensures forall i :: 0 <= i < |names| ==> IsStripped(names[i])
  {
    var all;
    all, used := GatherNames(replies);
    NameRoundsStop(replies, 0);
    NamesRunOut(replies, used);
    exhausted := |all| < Target;
    names := SortNames(all);
  }

  // ----------------------------------------------------- descriptions phase

  /** The description dict after the first `k` batches: each batch's pairs
      become a dict (the last pair for a name wins), merged in with `update`. */
  function MergedAfter(batches: seq<seq<(string, string)>>, k: nat): Dict
    requires k <= |batches|
  {
    if k == 0 then [] else UpdateAll(MergedAfter(batches, k - 1), UpdateAll([], batches[k - 1]))
  }

  /** The number of batches the description loop consumes. */
  function DescriptionRounds(batches: seq<seq<(string, string)>>, k: nat): (n: nat)
    requires k <= |batches|
    ensures k <= n <= |batches|
  {
    FirstReaching(DescriptionCounts(batches), k)
  }

  /** A batch that leaves the dict short of `Target` moves the stop on. */
  lemma DescriptionRoundsNext(batches: seq<seq<(string, string)>>, k: nat)
    requires k < |batches| && |MergedAfter(batches, k)| < Target
    ensures DescriptionRounds(batches, k) == DescriptionRounds(batches, k + 1)
  {
    DescriptionCountsAre(batches);
  }

  /** The loop stops where the dict reaches `Target` or the batches end. */
  lemma DescriptionRoundsHere(batches: seq<seq<(string, string)>>, k: nat)
    requires k <= |batches|
    requires k == |batches| || |MergedAfter(batches, k)| >= Target
    ensures DescriptionRounds(batches, k) == k
  {
    DescriptionCountsAre(batches);
  }

  /** `len(fruit_to_descriptions)` after each number of batches. */
  function DescriptionCounts(batches: seq<seq<(string, string)>>): (c: seq<nat>)
    ensures |c| == |batches| + 1
  {
    seq(|batches| + 1, j requires 0 <= j <= |batches| => |MergedAfter(batches, j)|)
  }

  lemma DescriptionCountsAre(batches: seq<seq<(string, string)>>)
    ensures forall j :: 0 <= j <= |batches| ==> DescriptionCounts(batches)[j] == |MergedAfter(batches, j)|
  {
  }

  /** Each merge keeps the keys the dict had, at their positions, adds the
      batch's keys, keeps keys distinct, and overwrites exactly the values
      the batch gives: the batch's last pair for a name wins. */
  lemma {:induction false} MergedDistinct(batches: seq<seq<(string, string)>>, k: nat)
    requires k <= |batches|
    ensures DistinctKeys(MergedAfter(batches, k))
  {
    if k > 0 {
      MergedDistinct(batches, k - 1);
      UpdateAllKeys(MergedAfter(batches, k - 1), UpdateAll([], batches[k - 1]));
    }
  }

  /** A merge keeps the earlier keys as a prefix, so the dict never shrinks. */
  lemma MergedPrefix(batches: seq<seq<(string, string)>>, k: nat)
    requires 0 < k <= |batches|
    ensures Keys(MergedAfter(batches, k - 1)) <= Keys(MergedAfter(batches, k))
    ensures |MergedAfter(batches, k - 1)| <= |MergedAfter(batches, k)|
  {
    MergedDistinct(batches, k - 1);
    UpdateAllKeys(MergedAfter(batches, k - 1), UpdateAll([], batches[k - 1]));
  }

  lemma MergeStep(batches: seq<seq<(string, string)>>, k: nat, name: string)
    requires 0 < k <= |batches|
    ensures DistinctKeys(MergedAfter(batches, k))
    ensures Keys(MergedAfter(batches, k - 1)) <= Keys(MergedAfter(batches, k))
    ensures name in Keys(MergedAfter(batches, k)) <==>
      name in Keys(MergedAfter(batches, k - 1)) || LastValue(batches[k - 1], name).Some?
    ensures Get(MergedAfter(batches, k), name) ==
      if LastValue(batches[k - 1], name).Some? then LastValue(batches[k - 1], name)
      else Get(MergedAfter(batches, k - 1), name)
  {
    var prior := MergedAfter(batches, k - 1);
    var batch := UpdateAll([], batches[k - 1]);
    MergedDistinct(batches, k - 1);
    UpdateAllKeys([], batches[k - 1]);
    UpdateAllKeys(prior, batch);
    GetUpdateAll(prior, batch, name);
    GetUpdateAll([], batches[k - 1], name);
    LastValueOfDict(batch, name);
    assert Get([], name) == None;
    LastValueKey(batches[k - 1], name);
    LastValueKey(batch, name);
  }

  /** `len(fruit_to_descriptions)` never shrinks from one batch to the next. */
  lemma {:induction false} MergedGrow(batches: seq<seq<(string, string)>>, j: nat, k: nat)
    requires j <= k <= |batches|
    ensures |MergedAfter(batches, j)| <= |MergedAfter(batches, k)|
    decreases k
  {
    if j < k {
      MergedGrow(batches, j, k - 1);
      MergedPrefix(batches, k);
    }
  }

  /** The description loop stops at the first batch that brings the dict
      to `Target` names, or when the batches run out. */
  lemma DescriptionRoundsStop(batches: seq<seq<(string, string)>>, k: nat)
    requires k <= |batches|
    requires forall j :: 0 <= j < k ==> |MergedAfter(batches, j)| < Target
    ensures forall j :: 0 <= j < DescriptionRounds(batches, k) ==> |MergedAfter(batches, j)| < Target
    ensures |MergedAfter(batches, DescriptionRounds(batches, k))| >= Target
            || DescriptionRounds(batches, k) == |batches|
  {
    DescriptionCountsAre(batches);
    FirstReachingStop(DescriptionCounts(batches), k);
  }

  /** Because the dict only grows, the loop runs out of batches before
      reaching `Target` exactly when all the batches together describe
      fewer names. */
  lemma DescriptionsRunOut(batches: seq<seq<(string, string)>>, n: nat)
    requires n <= |batches|
    requires |MergedAfter(batches, n)| >= Target || n == |batches|
    ensures |MergedAfter(batches, n)| < Target <==> |MergedAfter(batches, |batches|)| < Target
  {
    MergedGrow(batches, n, |batches|);
  }

  /** One body of the description loop: the batch's pairs as a dict
      comprehension, merged in with `update`. */
  method MergeBatch(descriptions: Dict, batches: seq<seq<(string, string)>>, b: nat) returns (merged: Dict)
    requires 1 <= b <= |batches| && descriptions == MergedAfter(batches, b - 1)
    ensures merged == MergedAfter(batches, b)
  {
    var result := UpdateAll([], batches[b - 1]);
    merged := UpdateAll(descriptions, result);
  }

  /** The second loop of `generate_descriptions`: while fewer than `Target`
      names are described, turn the next batch's matched pairs into a dict,
      merge it in with `update` and advance `curr_batch` by one (it starts
      at 1). `exhausted` reports that the batches ran out first. */
  method MergeDescriptions(batches: seq<seq<(string, string)>>) returns (descriptions: Dict, batch: nat, exhausted: bool)
    ensures batch == DescriptionRounds(batches, 0) + 1
    ensures descriptions == MergedAfter(batches, batch - 1) && DistinctKeys(descriptions)
    ensures forall k :: 0 <= k < batch - 1 ==> |MergedAfter(batches, k)| < Target
    ensures exhausted <==> |descriptions| < Target
    ensures exhausted ==> batch - 1 == |batches|
  {
    descriptions := [];
    batch := 1;
    while |descriptions| < Target && batch - 1 < |batches|
      invariant 1 <= batch <= |batches| + 1
      invariant descriptions == MergedAfter(batches, batch - 1) && DistinctKeys(descriptions)
      invariant DescriptionRounds(batches, 0) == DescriptionRounds(batches, batch - 1)
      decreases |batches| + 1 - batch
    {
      DescriptionRoundsNext(batches, batch - 1);
      MergedDistinct(batches, batch);
      descriptions := MergeBatch(descriptions, batches, batch);
      batch := batch + 1;
    }
    DescriptionRoundsHere(batches, batch - 1);
    DescriptionRoundsStop(batches, 0);
    exhausted := |descriptions| < Target;
  }

  // --------------------------------------------------------------- id parsing

  /** `[line.strip() for line in lines if line.strip()]`. */
  function CleanLines(lines: seq<string>): (r: seq<string>)
    ensures |r| <= |lines|
  {
    if lines == [] then []
    else (if Strip(lines[0]) != "" then [Strip(lines[0])] else []) + CleanLines(lines[1..])
  }

  /** Every cleaned line is non-blank and stripped. */
  lemma {:induction false} CleanLinesClean(lines: seq<string>)
    ensures forall i :: 0 <= i < |CleanLines(lines)| ==> CleanLines(lines)[i] != "" && IsStripped(CleanLines(lines)[i])
  {
    if lines != [] {
      CleanLinesClean(lines[1..]);
      var _, _ := StripIsTrimmedSlice(lines[0]);
    }
  }

  /** Cleaning keeps the original order: it works line by line. */
  lemma {:induction false} CleanLinesAppend(a: seq<string>, b: seq<string>)
    ensures CleanLines(a + b) == CleanLines(a) + CleanLines(b)
  {
    if a != [] {
      assert (a + b)[0] == a[0] && (a + b)[1..] == a[1..] + b;
      CleanLinesAppend(a[1..], b);
    } else {
      assert a + b == b;
    }
  }

  /** A cleaned item is exactly the stripped form of some non-blank line. */
  lemma {:induction false} CleanLinesMembers(lines: seq<string>, x: string)
    ensures x in CleanLines(lines) <==> x != "" && exists i :: 0 <= i < |lines| && Strip(lines[i]) == x
  {
    if lines != [] {
      CleanLinesMembers(lines[1..], x);
      if x != "" && (exists i :: 0 <= i < |lines| && Strip(lines[i]) == x) {
        var i :| 0 <= i < |lines| && Strip(lines[i]) == x;
        if i > 0 {
          assert Strip(lines[1..][i - 1]) == x;
        }
      }
    }
  }

  /** `generate_unique_ids`: split the stripped reply into lines, keep the
      stripped non-blank ones, and return at most the first `n`. */
  function ParseIds(content: string, n: nat): seq<string> {
    var lines := CleanLines(Split(Strip(content), "\n"));
    if |lines| <= n then lines else lines[..n]
  }

  /** The ids are the first `n` clean lines of the reply, or all of them
      when there are fewer; each is non-blank and stripped. */
  lemma ParseIdsPrefix(content: string, n: nat)
    ensures var ids := ParseIds(content, n);
      && |ids| <= n
      && ids <= CleanLines(Split(Strip(content), "\n"))
      && (|ids| < n ==> ids == CleanLines(Split(Strip(content), "\n")))
      && (forall i :: 0 <= i < |ids| ==> ids[i] != "" && IsStripped(ids[i]))
  {
    CleanLinesClean(Split(Strip(content), "\n"));
  }

  // ------------------------------------------------------- record synthesis

  /** The five `random.randint` draws for one record, in source order. */
  datatype Draw = Draw(unitPrice: int, stock: int, reorderLevel: int, reorderTime: int, reorderQuantity: int)

  /** The inclusive ranges `randint` draws from. */
  predicate InRange(d: Draw) {
    && 1 <= d.unitPrice <= 20
    && 10 <= d.stock <= 100
    && 5 <= d.reorderLevel <= 20
    && 1 <= d.reorderTime <= 10
    && 0 <= d.reorderQuantity <= 50
  }

  /** Every draw of the stream lies in its ranges. */
  ghost predicate AllInRange(draws: nat -> Draw) {
    forall i :: InRange(draws(i))
  }

  /** `f"${n}"`. */
  function Dollars(n: nat): string {
    "$" + Decimal(n)
  }

  /** The amount a `$`-formatted string states, if it is one. */
  function DollarAmount(s: string): Option<nat> {
    if |s| >= 2 && s[0] == '$' && forall i :: 1 <= i < |s| ==> IsDigit(s[i])
    then Some(DecimalValue(s[1..]))
    else None
  }

  lemma DollarsRoundTrip(n: nat)
    ensures DollarAmount(Dollars(n)) == Some(n)
  {
    DecimalRoundTrip(n);
    assert Dollars(n)[1..] == Decimal(n);
  }

  /** One loop body of `insert_synthetic_data` before the INSERT. */
  function SyntheticRecord(name: string, description: string, id: string, d: Draw): Record
    requires InRange(d)
  {
    Record("IN" + id, name, description, Dollars(d.unitPrice), d.stock,
           Dollars(d.unitPrice * d.stock), d.reorderLevel, d.reorderTime, d.reorderQuantity)
  }

  /** The synthesized record: its id is "IN" and the parsed id; its price
      and its inventory value (price times stock) read back as those `$`
      amounts; every number lies in its draw's range. */
  lemma SyntheticRecordFields(name: string, description: string, id: string, d: Draw)
    requires InRange(d)
    ensures var rec := SyntheticRecord(name, description, id, d);
      && rec.inventoryId == "IN" + id && rec.name == name && rec.description == description
      && DollarAmount(rec.unitPrice) == Some(d.unitPrice)
      && DollarAmount(rec.inventoryValue) == Some(d.unitPrice * rec.quantityInStock)
      && 10 <= rec.quantityInStock <= 100
      && 5 <= rec.reorderLevel <= 20
      && 1 <= rec.reorderTimeInDays <= 10
      && 0 <= rec.quantityInReorder <= 50
  {
    DollarsRoundTrip(d.unitPrice);
    DollarsRoundTrip(d.unitPrice * d.stock);
  }

  // ------------------------------------------------------- table passes

  /** The insert loop over the first `n` described names, in dict order,
      the i-th paired with the i-th id and draw. */
  function InsertSynthetic(rows: seq<Row>, items: Dict, ids: seq<string>, draws: nat -> Draw, n: nat): seq<Row>
    requires n <= |items| && n <= |ids|
    requires AllInRange(draws)
  {
    if n == 0 then rows
    else
      var i := n - 1;
      InsertOrIgnore(InsertSynthetic(rows, items, ids, draws, i), SyntheticRecord(items[i].0, items[i].1, ids[i], draws(i)))
  }

  /** The translation loop over a snapshot of the table: for each of its
      first `n` rows, store the translation of its description on the row
      with its `inventory_id`. */
  function TranslateEach(rows: seq<Row>, snapshot: seq<Row>, translate: string -> string, n: nat): seq<Row>
    requires n <= |snapshot|
  {
    if n == 0 then rows
    else
      var item := snapshot[n - 1];
      TranslateWhereId(TranslateEach(rows, snapshot, translate, n - 1), item.record.inventoryId, translate(item.record.description))
  }

  /** With unique ids, the translation loop over a snapshot of the table
      itself has written the translation of its own description on each of
      the first `n` rows, left the other rows alone and touched no other
      column. */
  lemma {:induction false} TranslateEachProgress(rows: seq<Row>, translate: string -> string, n: nat)
    requires UniqueKeys(rows) && n <= |rows|
    ensures var r := TranslateEach(rows, rows, translate, n);
      && |r| == |rows|
      && (forall i :: 0 <= i < |rows| ==> r[i].record == rows[i].record && r[i].embedding == rows[i].embedding)
      && (forall i :: 0 <= i < n ==> r[i].spanishDescription == Some(translate(rows[i].record.description)))
      && (forall i :: n <= i < |rows| ==> r[i] == rows[i])
  {
    if n > 0 {
      TranslateEachProgress(rows, translate, n - 1);
      var prior := TranslateEach(rows, rows, translate, n - 1);
      SameRecordsUnique(rows, prior);
      var spanish := translate(rows[n - 1].record.description);
      TranslateWhereIdTouchesOne(prior, n - 1, spanish);
      var r := TranslateEach(rows, rows, translate, n);
      assert r == TranslateWhereId(prior, prior[n - 1].record.inventoryId, spanish);
      assert r[n - 1] == prior[n - 1].(spanishDescription := Some(spanish));
      forall i | 0 <= i < |rows| && i != n - 1
        ensures r[i] == prior[i]
      {
      }
    }
  }

  /** The translation pass writes every row, including rows translated
      before, and nothing else: afterwards every row carries the translation
      of its own description. */
  lemma TranslatePassCompletes(rows: seq<Row>, translate: string -> string)
    requires UniqueKeys(rows)
    ensures var r := TranslateEach(rows, rows, translate, |rows|);
      && AllTranslated(r, translate)
      && RecordsOf(r) == RecordsOf(rows)
      && (forall i :: 0 <= i < |rows| ==> r[i].embedding == rows[i].embedding)
  {
    TranslateEachProgress(rows, translate, |rows|);
  }

  /** The two passes after the inserts: embed every row that lacks an
      embedding, then translate every row of the result. */
  function Enrich(rows: seq<Row>, embed: string -> Vector, translate: string -> string): seq<Row> {
    var embedded := EmbedNulls(rows, embed);
    TranslateEach(embedded, embedded, translate, |embedded|)
  }

  /** The state `insert_synthetic_data` leaves when every name has an id:
      inserts, then the embedding pass, then the translation pass. */
  function LoadSynthetic(rows: seq<Row>, items: Dict, ids: seq<string>, draws: nat -> Draw,
                         embed: string -> Vector, translate: string -> string): seq<Row>
    requires |items| <= |ids|
    requires AllInRange(draws)
  {
    Enrich(InsertSynthetic(rows, items, ids, draws, |items|), embed, translate)
  }

  /** The record the insert loop builds for its `j`-th name. */
  function Built(items: Dict, ids: seq<string>, draws: nat -> Draw, j: nat): Record
    requires j < |items| && j < |ids|
    requires AllInRange(draws)
  {
    SyntheticRecord(items[j].0, items[j].1, ids[j], draws(j))
  }

  /** `rec` is the record the insert loop builds for one of its first `n`
      names: that name and its description, the matching id and draw. */
  ghost predicate Synthesized(rec: Record, items: Dict, ids: seq<string>, draws: nat -> Draw, n: nat)
    requires n <= |items| && n <= |ids|
    requires AllInRange(draws)
  {
    exists j :: 0 <= j < n && rec == Built(items, ids, draws, j)
  }

  /** One iteration of the insert loop adds, if anything, the fresh row of
      the `n`-th synthesized record. */
  lemma AddsStep(rows: seq<Row>, prior: seq<Row>, r: seq<Row>, items: Dict, ids: seq<string>, draws: nat -> Draw, n: nat)
    requires 0 < n <= |items| && n <= |ids|
    requires AllInRange(draws)
    requires r == InsertOrIgnore(prior, Built(items, ids, draws, n - 1))
    requires forall i :: |rows| <= i < |prior| ==>
      prior[i] == Fresh(prior[i].record) && Synthesized(prior[i].record, items, ids, draws, n - 1)
    ensures forall i :: |rows| <= i < |r| ==>
      r[i] == Fresh(r[i].record) && Synthesized(r[i].record, items, ids, draws, n)
  {
    var rec := Built(items, ids, draws, n - 1);
    forall i | |rows| <= i < |r|
      ensures r[i] == Fresh(r[i].record) && Synthesized(r[i].record, items, ids, draws, n)
    {
      if i < |prior| {
        assert r[i] == prior[i];
        var j :| 0 <= j < n - 1 && prior[i].record == Built(items, ids, draws, j);
        assert 0 <= j < n && r[i].record == Built(items, ids, draws, j);
      } else {
        assert i == |prior| && r == prior + [Fresh(rec)];
        assert r[i].record == Built(items, ids, draws, n - 1);
      }
    }
  }

  /** Every row the insert loop adds is a fresh row holding one of the
      synthesized records. */
  lemma {:induction false} InsertSyntheticAdds(rows: seq<Row>, items: Dict, ids: seq<string>, draws: nat -> Draw, n: nat)
    requires n <= |items| && n <= |ids|
    requires AllInRange(draws)
    ensures var r := InsertSynthetic(rows, items, ids, draws, n);
      forall i :: |rows| <= i < |r| ==> r[i] == Fresh(r[i].record) && Synthesized(r[i].record, items, ids, draws, n)
  {
    if n > 0 {
      InsertSyntheticAdds(rows, items, ids, draws, n - 1);
      var prior := InsertSynthetic(rows, items, ids, draws, n - 1);
      var r := InsertSynthetic(rows, items, ids, draws, n);
      assert r == InsertOrIgnore(prior, Built(items, ids, draws, n - 1));
      forall i | |rows| <= i < |prior|
        ensures prior[i] == Fresh(prior[i].record) && Synthesized(prior[i].record, items, ids, draws, n - 1)
      {
        assert InsertSynthetic(rows, items, ids, draws, n - 1)[i] == prior[i];
      }
      AddsStep(rows, prior, r, items, ids, draws, n);
    }
  }

  /** The insert loop never breaks the table's constraints, keeps the rows
      it started with in front and adds at most one row per name. */
  lemma {:induction false} InsertSyntheticGrows(rows: seq<Row>, items: Dict, ids: seq<string>, draws: nat -> Draw, n: nat)
    requires n <= |items| && n <= |ids|
    requires AllInRange(draws)
    requires UniqueKeys(rows)
    ensures UniqueKeys(InsertSynthetic(rows, items, ids, draws, n))
    ensures var r := InsertSynthetic(rows, items, ids, draws, n);
      |rows| <= |r| <= |rows| + n && r[..|rows|] == rows
  {
    if n > 0 {
      InsertSyntheticGrows(rows, items, ids, draws, n - 1);
      var prior := InsertSynthetic(rows, items, ids, draws, n - 1);
      var rec := SyntheticRecord(items[n - 1].0, items[n - 1].1, ids[n - 1], draws(n - 1));
      assert InsertSynthetic(rows, items, ids, draws, n) == InsertOrIgnore(prior, rec);
      if !Conflicts(prior, rec) {
        assert (prior + [Fresh(rec)])[..|rows|] == prior[..|rows|];
      }
    }
  }

  /** No built record is lost: after the insert loop each of the first `n`
      records clashes with the table, because it was inserted or because a
      row with its id or name was already there. */
  lemma {:induction false} InsertSyntheticCovers(rows: seq<Row>, items: Dict, ids: seq<string>, draws: nat -> Draw, n: nat)
    requires n <= |items| && n <= |ids|
    requires AllInRange(draws)
    ensures forall j :: 0 <= j < n ==> Conflicts(InsertSynthetic(rows, items, ids, draws, n), Built(items, ids, draws, j))
  {
    if n > 0 {
      InsertSyntheticCovers(rows, items, ids, draws, n - 1);
      CoversStep(InsertSynthetic(rows, items, ids, draws, n - 1), InsertSynthetic(rows, items, ids, draws, n), items, ids, draws, n);
    }
  }

  /** One iteration of the insert loop accounts for the `n`-th synthesized
      record and keeps the earlier ones accounted for. */
  lemma CoversStep(prior: seq<Row>, r: seq<Row>, items: Dict, ids: seq<string>, draws: nat -> Draw, n: nat)
    requires 0 < n <= |items| && n <= |ids|
    requires AllInRange(draws)
    requires r == InsertOrIgnore(prior, Built(items, ids, draws, n - 1))
    requires forall j :: 0 <= j < n - 1 ==> Conflicts(prior, Built(items, ids, draws, j))
    ensures forall j :: 0 <= j < n ==> Conflicts(r, Built(items, ids, draws, j))
  {
    var rec := Built(items, ids, draws, n - 1);
    forall j | 0 <= j < n
      ensures Conflicts(r, Built(items, ids, draws, j))
    {
      InsertOrIgnoreAccounts(prior, rec, Built(items, ids, draws, j));
    }
  }

  /** Everything the insert loop promises about the table: the constraints
      hold, the rows it started with come first, at most one row is added
      per name, every added row is the fresh row of a synthesized record,
      and every synthesized record is in the table or clashes with a row
      that is. */
  lemma InsertSyntheticKeepsUnique(rows: seq<Row>, items: Dict, ids: seq<string>, draws: nat -> Draw, n: nat)
    requires n <= |items| && n <= |ids|
    requires AllInRange(draws)
    requires UniqueKeys(rows)
    ensures UniqueKeys(InsertSynthetic(rows, items, ids, draws, n))
    ensures var r := InsertSynthetic(rows, items, ids, draws, n);
      |rows| <= |r| <= |rows| + n && r[..|rows|] == rows
    ensures var r := InsertSynthetic(rows, items, ids, draws, n);
      forall i :: |rows| <= i < |r| ==> r[i] == Fresh(r[i].record) && Synthesized(r[i].record, items, ids, draws, n)
    ensures forall j :: 0 <= j < n ==> Conflicts(InsertSynthetic(rows, items, ids, draws, n), Built(items, ids, draws, j))
  {
    InsertSyntheticGrows(rows, items, ids, draws, n);
    InsertSyntheticAdds(rows, items, ids, draws, n);
    InsertSyntheticCovers(rows, items, ids, draws, n);
  }

  /** The two passes keep the inserted columns and the constraints, and
      leave every row embedded and carrying the translation of its own
      description. */
  lemma EnrichCompletes(rows: seq<Row>, embed: string -> Vector, translate: string -> string)
    requires UniqueKeys(rows)
    ensures var r := Enrich(rows, embed, translate);
      && RecordsOf(r) == RecordsOf(rows)
      && UniqueKeys(r) && AllEmbedded(r) && AllTranslated(r, translate)
  {
    var embedded := EmbedNulls(rows, embed);
    assert RecordsOf(embedded) == RecordsOf(rows);
    assert UniqueKeys(embedded);
    TranslatePassCompletes(embedded, translate);
  }

  /** After a complete run the table keeps its constraints, its earlier rows
      come first with their inserted columns unchanged, every later row
      holds one of the synthesized records, every synthesized record is
      there or clashes with a row that is, and every row is embedded and
      carries the translation of its own description. */
  lemma LoadSyntheticEnriched(rows: seq<Row>, items: Dict, ids: seq<string>, draws: nat -> Draw,
                              embed: string -> Vector, translate: string -> string)
    requires |items| <= |ids|
    requires AllInRange(draws)
    requires UniqueKeys(rows)
    ensures var r := LoadSynthetic(rows, items, ids, draws, embed, translate);
      && |rows| <= |r| <= |rows| + |items|
      && RecordsOf(r)[..|rows|] == RecordsOf(rows)
      && (forall i :: |rows| <= i < |r| ==> Synthesized(r[i].record, items, ids, draws, |items|))
      && (forall j :: 0 <= j < |items| ==> Conflicts(r, Built(items, ids, draws, j)))
      && UniqueKeys(r) && AllEmbedded(r) && AllTranslated(r, translate)
  {
    InsertSyntheticKeepsUnique(rows, items, ids, draws, |items|);
    var inserted := InsertSynthetic(rows, items, ids, draws, |items|);
    EnrichCompletes(inserted, embed, translate);
    assert RecordsOf(inserted)[..|rows|] == RecordsOf(rows);
    var r := LoadSynthetic(rows, items, ids, draws, embed, translate);
    forall i | |rows| <= i < |r|
      ensures Synthesized(r[i].record, items, ids, draws, |items|)
    {
      assert r[i].record == RecordsOf(r)[i] == RecordsOf(inserted)[i] == inserted[i].record;
    }
    forall j | 0 <= j < |items|
      ensures Conflicts(r, Built(items, ids, draws, j))
    {
      ConflictsByRecords(inserted, r, Built(items, ids, draws, j));
    }
  }

  // --------------------------------------------------------- the script

  /** Why a run stops early. */
  datatype LoadError = NamesExhausted | DescriptionsExhausted | IdsExhausted

  /** One iteration of the insert loop: the `count`-th described name with
      its id and draw, `INSERT ... ON CONFLICT DO NOTHING`, then `conn.commit()`. */
  method InsertNext(db: Database, tableName: string, items: Dict, ids: seq<string>, draws: nat -> Draw,
                    count: nat, ghost start: seq<Row>, ghost others: map<string, seq<Row>>)
    requires count < |items| && count < |ids|
    requires AllInRange(draws)
    requires db.Valid() && db.tables == db.committed
    requires tableName in db.tables && db.tables == others[tableName := db.tables[tableName]]
    requires db.tables[tableName] == InsertSynthetic(start, items, ids, draws, count)
    modifies db
    ensures db.Valid() && db.tables == db.committed
    ensures tableName in db.tables && db.tables == others[tableName := db.tables[tableName]]
    ensures db.tables[tableName] == InsertSynthetic(start, items, ids, draws, count + 1)
  {
    ghost var prior := InsertSynthetic(start, items, ids, draws, count);
    var rec := SyntheticRecord(items[count].0, items[count].1, ids[count], draws(count));
    db.InsertOnConflictDoNothing(tableName, rec);
    db.Commit();
    UpdateTwice(others, tableName, prior, InsertOrIgnore(prior, rec));
  }

  /** The insert loop of `insert_synthetic_data`: each described name, in
      dict order, with the next id and draw, inserted unless it clashes and
      committed at once. A name without an id ends the loop (the IndexError
      on `ids[count]`) with the earlier inserts committed. */
  method InsertItems(db: Database, tableName: string, items: Dict, ids: seq<string>, draws: nat -> Draw)
    returns (complete: bool)
    requires db.Valid() && db.tables == db.committed && tableName in db.tables
    requires AllInRange(draws)
    modifies db
    ensures db.Valid() && db.tables == db.committed
    ensures complete <==> |items| <= |ids|
    ensures db.tables == old(db.tables)[tableName :=
      InsertSynthetic(old(db.tables)[tableName], items, ids, draws, if complete then |items| else |ids|)]
  {
    ghost var start := db.tables[tableName];
    ghost var others := db.tables;
    assert others[tableName := start] == others;
    var count := 0;
    while count < |items| && count < |ids|
      invariant count <= |items| && count <= |ids|
      invariant db.Valid() && db.tables == db.committed
      invariant tableName in db.tables && db.tables == others[tableName := db.tables[tableName]]
      invariant db.tables[tableName] == InsertSynthetic(start, items, ids, draws, count)
    {
      InsertNext(db, tableName, items, ids, draws, count, start, others);
      count := count + 1;
    }
    complete := count == |items|;
    assert count == if complete then |items| else |ids|;
    ghost var loaded := InsertSynthetic(start, items, ids, draws, count);
    assert db.tables == others[tableName := loaded];
  }

  /** One iteration of the translation loop: translate the `k`-th
      snapshot row's description, `UPDATE ... WHERE inventory_id = ...` with
      it, then `conn.commit()`. */
  method TranslateNext(db: Database, tableName: string, info: seq<Row>, translate: string -> string,
                       k: nat, ghost others: map<string, seq<Row>>)
    requires k < |info|
    requires db.Valid() && db.tables == db.committed
    requires tableName in db.tables && db.tables == others[tableName := db.tables[tableName]]
    requires db.tables[tableName] == TranslateEach(info, info, translate, k)
    modifies db
    ensures db.Valid() && db.tables == db.committed
    ensures tableName in db.tables && db.tables == others[tableName := db.tables[tableName]]
    ensures db.tables[tableName] == TranslateEach(info, info, translate, k + 1)
  {
    ghost var prior := TranslateEach(info, info, translate, k);
    var spanish := translate(info[k].record.description);
    db.SetSpanishWhereId(tableName, info[k].record.inventoryId, spanish);
    db.Commit();
    UpdateTwice(others, tableName, prior, TranslateEach(info, info, translate, k + 1));
  }

  /** The translation loop of `insert_synthetic_data` over the rows the
      SELECT returned, committing after each UPDATE. */
  method TranslateAll(db: Database, tableName: string, translate: string -> string)
    requires db.Valid() && db.tables == db.committed && tableName in db.tables
    modifies db
    ensures db.Valid() && db.tables == db.committed
    ensures var rows := old(db.tables)[tableName];
      db.tables == old(db.tables)[tableName := TranslateEach(rows, rows, translate, |rows|)]
  {
    ghost var others := db.tables;
    var info := db.Select(tableName);
    assert others[tableName := info] == others;
    var k := 0;
    while k < |info|
      invariant k <= |info|
      invariant db.Valid() && db.tables == db.committed
      invariant tableName in db.tables && db.tables == others[tableName := db.tables[tableName]]
      invariant db.tables[tableName] == TranslateEach(info, info, translate, k)
    {
      TranslateNext(db, tableName, info, translate, k, others);
      k := k + 1;
    }
    ghost var translated := TranslateEach(info, info, translate, k);
    assert db.tables == others[tableName := translated];
  }

  /** The embedding pass and the translation pass, each committed. */
  method EnrichTable(db: Database, tableName: string, embed: string -> Vector, translate: string -> string)
    requires db.Valid() && db.tables == db.committed && tableName in db.tables
    modifies db
    ensures db.Valid() && db.tables == db.committed
    ensures db.tables == old(db.tables)[tableName := Enrich(old(db.tables)[tableName], embed, translate)]
  {
    ghost var before := db.tables;
    ghost var embedded := EmbedNulls(before[tableName], embed);
    db.EmbedWhereNull(tableName, embed);
    db.Commit();
    ghost var middle := db.tables;
    TranslateAll(db, tableName, translate);
    UpdateTwice(before, tableName, embedded, TranslateEach(embedded, embedded, translate, |embedded|));
  }

  /** Everything `insert_synthetic_data` does once the descriptions and the
      ids are known: the insert loop and, unless it stopped for want of an
      id, the two enrichment passes. */
  method LoadItems(db: Database, tableName: string, items: Dict, ids: seq<string>, draws: nat -> Draw,
                   embed: string -> Vector, translate: string -> string)
    returns (complete: bool)
    requires db.Valid() && db.tables == db.committed && tableName in db.tables
    requires AllInRange(draws)
    modifies db
    ensures db.Valid() && db.tables == db.committed
    ensures complete <==> |items| <= |ids|
    ensures db.tables == old(db.tables)[tableName :=
           if complete then LoadSynthetic(old(db.tables)[tableName], items, ids, draws, embed, translate)
           else InsertSynthetic(old(db.tables)[tableName], items, ids, draws, |ids|)]
  {
    ghost var before := db.tables;
    complete := InsertItems(db, tableName, items, ids, draws);
    if complete {
      ghost var inserted := InsertSynthetic(before[tableName], items, ids, draws, |items|);
      EnrichTable(db, tableName, embed, translate);
      UpdateTwice(before, tableName, inserted, Enrich(inserted, embed, translate));
    }
  }

  /** What `generate_descriptions` returns: once the names reach `Target`,
      the merged dict at the first batch that brings it to `Target`
      described names; or the phase whose replies ran out first. */
  function Descriptions(nameReplies: seq<string>, batches: seq<seq<(string, string)>>): Result<Dict, LoadError> {
    if |NamesAfter(nameReplies, |nameReplies|)| < Target then Failure(NamesExhausted)
    else if |MergedAfter(batches, |batches|)| < Target then Failure(DescriptionsExhausted)
    else Success(MergedAfter(batches, DescriptionRounds(batches, 0)))
  }

  /** A successful description phase yields at least `Target` distinct
      names, and no earlier batch had reached `Target`. */
  lemma DescriptionsReachTarget(nameReplies: seq<string>, batches: seq<seq<(string, string)>>)
    requires Descriptions(nameReplies, batches).Success?
    ensures var d := Descriptions(nameReplies, batches).value;
      && |d| >= Target && DistinctKeys(d)
      && forall k :: 0 <= k < DescriptionRounds(batches, 0) ==> |MergedAfter(batches, k)| < Target
  {
    DescriptionRoundsStop(batches, 0);
    MergedDistinct(batches, DescriptionRounds(batches, 0));
  }

  /** `generate_descriptions()`: the names phase, then the descriptions
      phase. */
  method GenerateDescriptions(nameReplies: seq<string>, batches: seq<seq<(string, string)>>)
    returns (result: Result<Dict, LoadError>)
    ensures result == Descriptions(nameReplies, batches)
  {
    var names, used, namesExhausted := CollectNames(nameReplies);
    if namesExhausted {
      return Failure(NamesExhausted);
    }
    var items, batch, itemsExhausted := MergeDescriptions(batches);
    DescriptionRoundsStop(batches, 0);
    DescriptionsRunOut(batches, batch - 1);
    if itemsExhausted {
      return Failure(DescriptionsExhausted);
    }
    return Success(items);
  }

  /** `CREATE TABLE IF NOT EXISTS` then `conn.commit()`: an existing table
      keeps its rows, a missing one starts empty. */
  method PrepareTable(db: Database, tableName: string)
    requires db.Valid() && db.tables == db.committed
    modifies db
    ensures db.Valid() && db.tables == db.committed && tableName in db.tables
    ensures db.committed == old(db.committed)[tableName :=
      if tableName in old(db.committed) then old(db.committed)[tableName] else []]
  {
    db.CreateTableIfNotExists(tableName);
    db.Commit();
    assert db.committed == old(db.committed)[tableName := db.committed[tableName]];
  }

  /** `insert_synthetic_data(table_name)` against a database session. The
      table is created if missing; the descriptions are generated; then
      `2 * len(descriptions)` ids are parsed and the records loaded. */
  method InsertSyntheticData(db: Database, tableName: string, nameReplies: seq<string>,
                             batches: seq<seq<(string, string)>>, idReply: string, draws: nat -> Draw,
                             embed: string -> Vector, translate: string -> string)
    returns (error: Option<LoadError>)
    requires db.Valid() && db.tables == db.committed
    requires AllInRange(draws)
    modifies db
    ensures db.Valid() && db.tables == db.committed
    ensures db.committed.Keys == old(db.committed).Keys + {tableName}
    ensures forall n :: n in old(db.committed) && n != tableName ==> db.committed[n] == old(db.committed)[n]
    ensures var start := if tableName in old(db.committed) then old(db.committed)[tableName] else [];
      match Descriptions(nameReplies, batches)
      case Failure(e) =>
        error == Some(e) && db.committed[tableName] == start
      case Success(items) =>
        var ids := ParseIds(idReply, 2 * |items|);
        if |ids| < |items| then
          error == Some(IdsExhausted) && db.committed[tableName] == InsertSynthetic(start, items, ids, draws, |ids|)
        else
          error == None && db.committed[tableName] == LoadSynthetic(start, items, ids, draws, embed, translate)
  {
    PrepareTable(db, tableName);
    ghost var created := db.tables;
    var descriptions := GenerateDescriptions(nameReplies, batches);
    if descriptions.Failure? {
      return Some(descriptions.error);
    }
    var items := descriptions.value;
    var ids := ParseIds(idReply, 2 * |items|);
    var complete := LoadItems(db, tableName, items, ids, draws, embed, translate);
    UpdateTwice(old(db.committed), tableName, created[tableName], db.tables[tableName]);
    assert db.committed == old(db.committed)[tableName := db.committed[tableName]];
    error := if complete then None else Some(IdsExhausted);
  }
}

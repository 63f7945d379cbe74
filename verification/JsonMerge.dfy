/**
 Storing variables (main/JFS_FLASH_Actor.c): `update_json_object` merges a request into the stored
 JSON object in place, and `JFS_Write_Variable` skips the flash write if nothing changed.
 */
module JsonMerge {
  import opened Common

  /** A parsed value; `whole` is the integer copy of a number, `body` stands for an array or object. */
  datatype Value = Text(text: string) | Number(double: real, whole: int) | Bool(b: bool) | Null | Composite(body: string)

  datatype Item = Item(key: string, value: Value)

  function ToLower(c: char): char {
    if 'A' <= c <= 'Z' then c - 'A' + 'a' else c
  }

  function Fold(key: string): (r: string)
    ensures |r| == |key|
  {
    seq(|key|, i requires 0 <= i < |key| => ToLower(key[i]))
  }

  predicate SameKey(a: string, b: string) {
    Fold(a) == Fold(b)
  }

  /** Two characters are one letter in two cases, or equal. */
  predicate SameLetter(c: char, d: char) {
    c == d || ('A' <= c <= 'Z' && d as int == c as int + 32) || ('A' <= d <= 'Z' && c as int == d as int + 32)
  }

  lemma SameWhenFolded(c: char, d: char)
    ensures ToLower(c) == ToLower(d) <==> SameLetter(c, d)
  {
  }

  /** Keys meet iff they differ in the case of letters at most. */
  lemma SameKeyIff(a: string, b: string)
    ensures SameKey(a, b) <==> |a| == |b| && forall i :: 0 <= i < |a| ==> SameLetter(a[i], b[i])
  {
    hide ToLower, SameLetter;
    if SameKey(a, b) {
      forall i | 0 <= i < |a| ensures SameLetter(a[i], b[i]) {
        assert Fold(a)[i] == Fold(b)[i];
        SameWhenFolded(a[i], b[i]);
      }
    }
    if |a| == |b| && forall i :: 0 <= i < |a| ==> SameLetter(a[i], b[i]) {
      forall i | 0 <= i < |a| ensures Fold(a)[i] == Fold(b)[i] { SameWhenFolded(a[i], b[i]); }
    }
  }

  /** The position of the first item with the key, in either case, or the length. */
  function Find(items: seq<Item>, key: string): (p: nat)
    ensures p <= |items|
    ensures p < |items| ==> SameKey(items[p].key, key)
    ensures forall q :: 0 <= q < p ==> !SameKey(items[q].key, key)
  {
    if items == [] || SameKey(items[0].key, key) then 0 else 1 + Find(items[1..], key)
  }

  // ---------------------------------------------------------------- one item

  /** The fields `valuedouble` and `valueint` of a parsed value, whatever its kind. */
  function DoubleField(v: Value): real {
    if v.Number? then v.double else 0.0
  }

  function WholeField(v: Value): int {
    if v.Number? then v.whole else if v == Bool(true) then 1 else 0
  }

  /** Null, arrays and objects replace the item; their key is then spelled as in the request. */
  predicate Replaces(v: Value) {
    v.Null? || v.Composite?
  }

  /** A number is assigned without its type, so it does not show in an item that is not a number. */
  function Assign(before: Value, now: Value): Value {
    if now.Number? && !before.Number? then before else now
  }

  function Place(item: Item, request: Item): Item {
    if Replaces(request.value) then request else Item(item.key, Assign(item.value, request.value))
  }

  /** What an item that is present adds to the count of differences. */
  function Cost(before: Value, now: Value): nat {
    match now
    case Text(_) => One(before != now)
    case Number(double, whole) => One(DoubleField(before) != double) + One(WholeField(before) != whole)
    case Bool(_) => One(before != now)
    case Null => 1
    case Composite(_) => 1
  }

  /** Scalars keep the spelling of the key that is stored, nulls, arrays and objects bring their own. */
  lemma SpellingOfKey(item: Item, request: Item)
    ensures Place(item, request).key == if request.value.Null? || request.value.Composite? then request.key else item.key
  {
  }

  /** A number that is lost still counts unless it equals the numeric fields of what it meets: 0 and 0, or 0 and 1 for true. */
  lemma LostNumberIsFreeIff(before: Value, double: real, whole: int)
    requires !before.Number?
    ensures Assign(before, Number(double, whole)) == before
    ensures Cost(before, Number(double, whole)) == 0 <==> double == 0.0 && whole == if before == Bool(true) then 1 else 0
  {
  }

  // ---------------------------------------------------------------- the merge

  function MergeOne(items: seq<Item>, request: Item): (merged: seq<Item>)
    ensures |merged| == if Find(items, request.key) < |items| then |items| else |items| + 1
  {
    var p := Find(items, request.key);
    if p < |items| then items[p := Place(items[p], request)] else items + [request]
  }

  function CostOne(items: seq<Item>, request: Item): nat {
    var p := Find(items, request.key);
    if p < |items| then Cost(items[p].value, request.value) else 1
  }

  function Merge(items: seq<Item>, input: seq<Item>): seq<Item>
    decreases |input|
  {
    if input == [] then items else Merge(MergeOne(items, input[0]), input[1..])
  }

  function Count(items: seq<Item>, input: seq<Item>): nat
    decreases |input|
  {
    if input == [] then 0 else CostOne(items, input[0]) + Count(MergeOne(items, input[0]), input[1..])
  }

  ghost predicate DistinctKeys(input: seq<Item>) {
    forall i, j :: 0 <= i < j < |input| ==> !SameKey(input[i].key, input[j].key)
  }

  /** A request text that meets a value without text makes `strcmp` read a null pointer. */
  ghost predicate TextMeetsText(items: seq<Item>, request: Item) {
    var p := Find(items, request.key);
    p < |items| && request.value.Text? ==> items[p].value.Text?
  }

  ghost predicate Safe(items: seq<Item>, input: seq<Item>) {
    forall j :: 0 <= j < |input| ==> TextMeetsText(items, input[j])
  }

  /** The number of differences, or the device restarts. */
  datatype Outcome = Counted(differences: nat) | Crashed

  class JsonObject {
    var items: seq<Item>

    constructor (initial: seq<Item>)
      ensures items == initial
    {
      items := initial;
    }

    /** The loop, up to the end of the request or to the text that makes it crash. */
    method Update(input: seq<Item>) returns (outcome: Outcome)
      requires DistinctKeys(input)
      modifies this
      ensures outcome == if Safe(old(items), input) then Counted(Count(old(items), input)) else Crashed
      ensures outcome.Counted? ==> items == Merge(old(items), input)
    {
      var differences := 0;
      var i := 0;
      while i < |input|
        invariant 0 <= i <= |input|
        invariant Safe(items, input[i..]) <==> Safe(old(items), input)
        invariant Merge(items, input[i..]) == Merge(old(items), input)
        invariant differences + Count(items, input[i..]) == Count(old(items), input)
      {
        assert input[i..][0] == input[i] && input[i..][1..] == input[i + 1..];
        RestIsDistinct(input, i);
        SafeIff(items, input[i..]);
        var d := UpdateItem(input[i]);
        if d.Crashed? {
          return Crashed;
        }
        differences := differences + d.differences;
        i := i + 1;
      }
      outcome := Counted(differences);
    }

    method UpdateItem(request: Item) returns (outcome: Outcome)
      modifies this
      ensures outcome == if TextMeetsText(old(items), request) then Counted(CostOne(old(items), request)) else Crashed
      ensures outcome.Counted? ==> items == MergeOne(old(items), request)
    {
      var differences := 0;
      var p := Find(items, request.key);
      if p == |items| {
        items := items + [request];
        return Counted(1);
      }
      var original := items[p];
      match request.value {
        case Text(text) =>
          if !original.value.Text? {
            return Crashed;
          }
          if original.value.text != text {
            differences := differences + 1;
            items := items[p := Item(original.key, Text(text))];
          }
        case Number(double, whole) =>
          if DoubleField(original.value) != double {
            differences := differences + 1;
            if original.value.Number? { items := items[p := Item(original.key, Number(double, original.value.whole))]; }
          }
          if WholeField(original.value) != whole {
            differences := differences + 1;
            if original.value.Number? { items := items[p := Item(original.key, Number(double, whole))]; }
          }
        case Bool(_) =>
          if original.value != request.value {
            differences := differences + 1;
            items := items[p := Item(original.key, request.value)];
          }
        case Null =>
          differences := differences + 1;
          items := items[p := request];
        case Composite(_) =>
          differences := differences + 1;
          items := items[p := request];
      }
      outcome := Counted(differences);
    }
  }

  /** After an item was merged, other keys are found where they were. */
  lemma FindAfter(items: seq<Item>, request: Item, key: string)
    requires !SameKey(request.key, key)
    ensures var merged, p := MergeOne(items, request), Find(items, key);
            Find(merged, key) == (if p < |items| then p else |merged|) && (p < |items| ==> merged[p] == items[p])
  {
    hide Fold;
    var merged := MergeOne(items, request);
    SameKeyAsPlaced(items, request);
    forall q | 0 <= q < |merged| ensures SameKey(merged[q].key, key) <==> q < |items| && SameKey(items[q].key, key) {
    }
  }

  lemma SameKeyAsPlaced(items: seq<Item>, request: Item)
    ensures var merged := MergeOne(items, request);
            |merged| >= |items|
            && (forall q, key :: 0 <= q < |items| ==> (SameKey(merged[q].key, key) <==> SameKey(items[q].key, key)))
            && (forall q, key :: |items| <= q < |merged| ==> (SameKey(merged[q].key, key) <==> SameKey(request.key, key)))
  {
  }

  /** The rest of a request is safe for the merged object iff it was for the object before. */
  lemma SafeIff(items: seq<Item>, input: seq<Item>)
    requires DistinctKeys(input) && input != []
    ensures Safe(items, input) <==> TextMeetsText(items, input[0]) && Safe(MergeOne(items, input[0]), input[1..])
  {
    hide SameKey, MergeOne, Find;
    forall j | 0 <= j < |input[1..]|
      ensures TextMeetsText(MergeOne(items, input[0]), input[1..][j]) <==> TextMeetsText(items, input[j + 1])
    {
      FindAfter(items, input[0], input[j + 1].key);
    }
    assert forall j :: 0 <= j < |input[1..]| ==> input[1..][j] == input[j + 1];
    if TextMeetsText(items, input[0]) && Safe(MergeOne(items, input[0]), input[1..]) {
      forall j | 0 <= j < |input| ensures TextMeetsText(items, input[j]) {
        if j > 0 { assert TextMeetsText(MergeOne(items, input[0]), input[1..][j - 1]); }
      }
    }
  }

  lemma RestIsDistinct(input: seq<Item>, i: nat)
    requires DistinctKeys(input) && i <= |input|
    ensures DistinctKeys(input[i..])
  {
  }

  // ---------------------------------------------------------------- what the merge does, item by item

  function Missing(items: seq<Item>, input: seq<Item>): seq<Item>
    decreases |input|
  {
    if input == [] then []
    else (if Find(items, input[0].key) < |items| then [] else [input[0]]) + Missing(items, input[1..])
  }

  /** Item `p` is where the request's item `j` belongs. */
  ghost predicate Meets(items: seq<Item>, input: seq<Item>, p: nat, j: nat)
    requires j < |input|
  {
    Find(items, input[j].key) == p
  }

  /** Items keep their places and what the request does not name; what is missing is appended in the order of the request. */
  ghost predicate MergedTo(items: seq<Item>, input: seq<Item>, merged: seq<Item>) {
    && |merged| >= |items|
    && (forall p: nat, j: nat :: p < |items| && j < |input| && Meets(items, input, p, j) ==> merged[p] == Place(items[p], input[j]))
    && (forall p: nat :: p < |items| && (forall j: nat :: j < |input| ==> !Meets(items, input, p, j)) ==> merged[p] == items[p])
    && merged[|items|..] == Missing(items, input)
  }

  lemma {:induction false} MergeItemByItem(items: seq<Item>, input: seq<Item>)
    requires DistinctKeys(input)
    ensures MergedTo(items, input, Merge(items, input))
    decreases |input|
  {
    hide SameKey, Place, Find;
    if input != [] {
      var next, rest := MergeOne(items, input[0]), input[1..];
      MergeItemByItem(next, rest);
      MergeFirst(items, input, Merge(next, rest));
    }
  }

  ghost predicate KeyIsNew(key: string, input: seq<Item>) {
    forall j :: 0 <= j < |input| ==> !SameKey(key, input[j].key)
  }

  lemma FirstKeyIsNew(input: seq<Item>)
    requires DistinctKeys(input) && input != []
    ensures KeyIsNew(input[0].key, input[1..])
  {
  }

  lemma {:induction false} MissingAfter(items: seq<Item>, request: Item, input: seq<Item>)
    requires KeyIsNew(request.key, input)
    ensures Missing(MergeOne(items, request), input) == Missing(items, input)
    decreases |input|
  {
    hide SameKey, MergeOne, Find;
    if input != [] {
      FindAfter(items, request, input[0].key);
      MissingAfter(items, request, input[1..]);
    }
  }

  lemma RestMeets(items: seq<Item>, input: seq<Item>, p: nat, i: nat)
    requires DistinctKeys(input) && p < |items| && i + 1 < |input|
    ensures Meets(MergeOne(items, input[0]), input[1..], p, i) <==> Meets(items, input, p, i + 1)
  {
    hide SameKey, MergeOne, Find;
    FindAfter(items, input[0], input[i + 1].key);
  }

  lemma MergeMet(items: seq<Item>, input: seq<Item>, merged: seq<Item>, p: nat, j: nat)
    requires DistinctKeys(input) && p < |items| && j < |input| && Meets(items, input, p, j)
    requires MergedTo(MergeOne(items, input[0]), input[1..], merged)
    ensures merged[p] == Place(items[p], input[j])
  {
    hide SameKey, Place, Find;
    MeetsOnce(items, input, p, j);
    if j == 0 {
      forall i: nat | i < |input[1..]| ensures !Meets(MergeOne(items, input[0]), input[1..], p, i) { RestMeets(items, input, p, i); }
    } else {
      RestMeets(items, input, p, j - 1);
      assert !Meets(items, input, p, 0);
      assert MergeOne(items, input[0])[p] == items[p];
    }
  }

  lemma MergeUnmet(items: seq<Item>, input: seq<Item>, merged: seq<Item>, p: nat)
    requires DistinctKeys(input) && input != [] && p < |items| && forall j: nat :: j < |input| ==> !Meets(items, input, p, j)
    requires MergedTo(MergeOne(items, input[0]), input[1..], merged)
    ensures merged[p] == items[p]
  {
    hide SameKey, Place, Find;
    assert !Meets(items, input, p, 0);
    assert MergeOne(items, input[0])[p] == items[p];
    forall i: nat | i < |input[1..]| ensures !Meets(MergeOne(items, input[0]), input[1..], p, i) { RestMeets(items, input, p, i); }
  }

  lemma AppendedStays(items: seq<Item>, input: seq<Item>, merged: seq<Item>)
    requires DistinctKeys(input) && input != [] && Find(items, input[0].key) == |items|
    requires MergedTo(MergeOne(items, input[0]), input[1..], merged)
    ensures |merged| > |items| && merged[|items|] == input[0]
  {
    hide SameKey, Place, Find, Missing;
    var next, rest := MergeOne(items, input[0]), input[1..];
    assert next[|items|] == input[0];
    forall i: nat | i < |rest| ensures !Meets(next, rest, |items|, i) { FindAfter(items, input[0], rest[i].key); }
  }

  lemma MergeMissing(items: seq<Item>, input: seq<Item>, merged: seq<Item>)
    requires DistinctKeys(input) && input != []
    requires MergedTo(MergeOne(items, input[0]), input[1..], merged)
    ensures |merged| >= |items| && merged[|items|..] == Missing(items, input)
  {
    hide *;
    var next, rest := MergeOne(items, input[0]), input[1..];
    RestIsMissing(next, rest, merged);
    FirstKeyIsNew(input);
    MissingAfter(items, input[0], rest);
    if Find(items, input[0].key) == |items| {
      AppendedStays(items, input, merged);
      MissingFirst(items, input);
      assert merged[|items|..] == [input[0]] + merged[|items| + 1..];
    } else {
      MissingFirst(items, input);
    }
  }

  lemma RestIsMissing(items: seq<Item>, input: seq<Item>, merged: seq<Item>)
    requires MergedTo(items, input, merged)
    ensures |merged| >= |items| && merged[|items|..] == Missing(items, input)
  {
    hide Missing, Meets, Place;
  }

  lemma MissingFirst(items: seq<Item>, input: seq<Item>)
    requires input != []
    ensures Missing(items, input)
            == if Find(items, input[0].key) < |items| then Missing(items, input[1..]) else [input[0]] + Missing(items, input[1..])
  {
    hide Find;
    assert [] + Missing(items, input[1..]) == Missing(items, input[1..]);
  }

  lemma MergeFirst(items: seq<Item>, input: seq<Item>, merged: seq<Item>)
    requires input != [] && DistinctKeys(input) && MergedTo(MergeOne(items, input[0]), input[1..], merged)
    ensures MergedTo(items, input, merged)
  {
    hide SameKey, Place, Find, Meets, Missing;
    forall p: nat, j: nat | p < |items| && j < |input| && Meets(items, input, p, j) ensures merged[p] == Place(items[p], input[j]) {
      MergeMet(items, input, merged, p, j);
    }
    forall p: nat | p < |items| && (forall j: nat :: j < |input| ==> !Meets(items, input, p, j)) ensures merged[p] == items[p] {
      MergeUnmet(items, input, merged, p);
    }
    MergeMissing(items, input, merged);
  }

  lemma MeetsOnce(items: seq<Item>, input: seq<Item>, p: nat, j: nat)
    requires DistinctKeys(input) && p < |items| && j < |input| && Meets(items, input, p, j)
    ensures forall i: nat :: i < |input| && i != j ==> !Meets(items, input, p, i)
  {
    forall i: nat | i < |input| && i != j ensures !Meets(items, input, p, i) {
      if i < j {
        assert !SameKey(input[i].key, input[j].key);
      } else {
        assert !SameKey(input[j].key, input[i].key);
      }
    }
  }

  // ---------------------------------------------------------------- what a caller sees

  /** The value of a key. */
  ghost predicate Has(items: seq<Item>, key: string, value: Value) {
    var p := Find(items, key);
    p < |items| && items[p].value == value
  }

  lemma {:induction false} OtherKeysKeep(items: seq<Item>, input: seq<Item>, key: string)
    requires KeyIsNew(key, input)
    ensures var merged, p := Merge(items, input), Find(items, key);
            Find(merged, key) == (if p < |items| then p else |merged|) && (p < |items| ==> p < |merged| && merged[p] == items[p])
    decreases |input|
  {
    hide Fold, MergeOne, Find;
    if input != [] {
      FindAfter(items, input[0], key);
      OtherKeysKeep(MergeOne(items, input[0]), input[1..], key);
    }
  }

  /** What a key of the request is left with. */
  ghost function Settled(items: seq<Item>, request: Item): Value {
    var p := Find(items, request.key);
    if p < |items| then Place(items[p], request).value else request.value
  }

  lemma FoundAt(items: seq<Item>, key: string, p: nat)
    requires p < |items| && SameKey(items[p].key, key) && forall q :: 0 <= q < p ==> !SameKey(items[q].key, key)
    ensures Find(items, key) == p
  {
    hide SameKey;
  }

  lemma SettledAtOnce(items: seq<Item>, request: Item)
    ensures Has(MergeOne(items, request), request.key, Settled(items, request))
  {
    hide SameKey, Find, Place;
    var p := Find(items, request.key);
    var merged := MergeOne(items, request);
    SameKeyAsPlaced(items, request);
    SameKeyIsReflexive(request.key);
    FoundAt(merged, request.key, p);
  }

  lemma SameKeyIsReflexive(key: string)
    ensures SameKey(key, key)
  {
  }

  lemma {:induction false} KeyIsSettled(items: seq<Item>, input: seq<Item>, j: nat)
    requires DistinctKeys(input) && j < |input|
    ensures Has(Merge(items, input), input[j].key, Settled(items, input[j]))
    decreases |input|
  {
    hide MergeOne, Find, SameKey, Place;
    var next := MergeOne(items, input[0]);
    FirstKeyIsNew(input);
    if j == 0 {
      SettledAtOnce(items, input[0]);
      OtherKeysKeep(next, input[1..], input[0].key);
    } else {
      FindAfter(items, input[0], input[j].key);
      KeyIsSettled(next, input[1..], j - 1);
    }
  }

  /** A key of the request has its new value afterwards, unless a number meets an item that is not a number. */
  lemma KeyTakesItsValueIff(items: seq<Item>, input: seq<Item>, j: nat)
    requires DistinctKeys(input) && j < |input|
    ensures Has(Merge(items, input), input[j].key, input[j].value)
            <==> Find(items, input[j].key) == |items| || !input[j].value.Number? || items[Find(items, input[j].key)].value.Number?
  {
    hide Merge, Find, SameKey;
    KeyIsSettled(items, input, j);
  }

  // ---------------------------------------------------------------- the count

  /** Values of one kind meet. */
  ghost predicate NumberMeetsNumber(items: seq<Item>, request: Item) {
    var p := Find(items, request.key);
    p < |items| && request.value.Number? ==> items[p].value.Number?
  }

  lemma {:induction false} NoCountNoChange(items: seq<Item>, input: seq<Item>)
    requires Count(items, input) == 0
    ensures Merge(items, input) == items && forall j :: 0 <= j < |input| ==> CostOne(items, input[j]) == 0
    decreases |input|
  {
    hide Find;
    if input != [] {
      assert MergeOne(items, input[0]) == items;
      NoCountNoChange(items, input[1..]);
    }
  }

  lemma {:induction false} FreeItems(items: seq<Item>, input: seq<Item>)
    requires forall j :: 0 <= j < |input| ==> CostOne(items, input[j]) == 0
    ensures Count(items, input) == 0
    decreases |input|
  {
    hide Find;
    if input != [] {
      assert MergeOne(items, input[0]) == items;
      FreeItems(items, input[1..]);
    }
  }

  ghost predicate Scalars(input: seq<Item>) {
    forall j :: 0 <= j < |input| ==> !Replaces(input[j].value)
  }

  lemma FreeIff(items: seq<Item>, request: Item)
    requires NumberMeetsNumber(items, request)
    ensures CostOne(items, request) == 0 <==> !Replaces(request.value) && Has(items, request.key, request.value)
  {
    hide Find;
  }

  /** The count is zero iff the request is scalar and every key already has its value; the object is then unchanged. */
  lemma CountIsZeroIff(items: seq<Item>, input: seq<Item>)
    requires forall j :: 0 <= j < |input| ==> NumberMeetsNumber(items, input[j])
    ensures Count(items, input) == 0 <==> Scalars(input) && forall j :: 0 <= j < |input| ==> Has(items, input[j].key, input[j].value)
    ensures Count(items, input) == 0 ==> Merge(items, input) == items
  {
    hide CostOne, Count, Merge, Has, NumberMeetsNumber, Replaces;
    forall j | 0 <= j < |input| ensures CostOne(items, input[j]) == 0 <==> !Replaces(input[j].value) && Has(items, input[j].key, input[j].value) {
      FreeIff(items, input[j]);
    }
    if Count(items, input) == 0 {
      NoCountNoChange(items, input);
    } else if forall j :: 0 <= j < |input| ==> CostOne(items, input[j]) == 0 {
      FreeItems(items, input);
    }
  }

  /** Without nulls, arrays and objects the count is zero iff nothing changes. */
  lemma CountTellsChange(items: seq<Item>, input: seq<Item>)
    requires DistinctKeys(input) && Scalars(input) && forall j :: 0 <= j < |input| ==> NumberMeetsNumber(items, input[j])
    ensures Count(items, input) == 0 <==> Merge(items, input) == items
  {
    hide Count, Merge, Has, Replaces, SameKey, Find;
    CountIsZeroIff(items, input);
    if Merge(items, input) == items {
      forall j | 0 <= j < |input| ensures Has(items, input[j].key, input[j].value) {
        assert NumberMeetsNumber(items, input[j]);
        KeyTakesItsValueIff(items, input, j);
      }
    }
  }

  /** The same request again changes nothing, and counts nothing unless it holds a null, an array or an object. */
  lemma RepeatingIsFree(items: seq<Item>, input: seq<Item>)
    requires DistinctKeys(input) && forall j :: 0 <= j < |input| ==> NumberMeetsNumber(items, input[j])
    ensures Count(Merge(items, input), input) == 0 <==> Scalars(input)
    ensures Scalars(input) ==> Merge(Merge(items, input), input) == Merge(items, input)
  {
    hide Count, Merge, Replaces, SameKey, Find;
    var merged := Merge(items, input);
    forall j | 0 <= j < |input| ensures Has(merged, input[j].key, input[j].value) && NumberMeetsNumber(merged, input[j]) {
      assert NumberMeetsNumber(items, input[j]);
      KeyTakesItsValueIff(items, input, j);
    }
    CountIsZeroIff(merged, input);
  }

  // ---------------------------------------------------------------- the stored file

  lemma {:induction false} MergeIntoNothing(input: seq<Item>)
    requires DistinctKeys(input)
    ensures Merge([], input) == input
  {
    MergeItemByItem([], input);
    AllMissing(input);
  }

  lemma {:induction false} AllMissing(input: seq<Item>)
    ensures Missing([], input) == input
    decreases |input|
  {
    if input != [] {
      AllMissing(input[1..]);
      assert input == [input[0]] + input[1..];
    }
  }

  const READ_ATTEMPTS := 3

  ghost predicate Readable(readable: nat -> bool) {
    exists attempt: nat :: attempt < READ_ATTEMPTS && readable(attempt)
  }

  class VariableFile {
    var content: seq<Item>

    constructor (initial: seq<Item>)
      ensures content == initial
    {
      content := initial;
    }

    /**
     `readable` tells which attempts to read succeed, `parses` whether what is read is an object, and
     `damaged` what a failing write leaves behind.
     */
    method WriteVariable(input: seq<Item>, readable: nat -> bool, parses: bool, writes: bool, damaged: seq<Item>)
        returns (outcome: Outcome)
      requires DistinctKeys(input)
      modifies this
      ensures var original := if Readable(readable) && parses then old(content) else [];
              && outcome == (if Safe(original, input) then Counted(Count(original, input)) else Crashed)
              && content == if outcome.Crashed? || Count(original, input) == 0 then old(content)
                            else if writes then Merge(original, input)
                            else damaged
      ensures Readable(readable) && parses && writes && outcome.Counted? ==> content == Merge(old(content), input)
      ensures !(Readable(readable) && parses) && writes && input != [] ==> content == input
    {
      var read, attempt := false, 0;
      while !read && attempt < READ_ATTEMPTS
        invariant attempt <= READ_ATTEMPTS && (read ==> attempt < READ_ATTEMPTS && readable(attempt))
        invariant !read ==> forall a: nat :: a < attempt ==> !readable(a)
        decreases READ_ATTEMPTS - attempt, !read
      {
        read := readable(attempt);
        if !read {
          attempt := attempt + 1;
        }
      }
      assert read && attempt < READ_ATTEMPTS ==> Readable(readable);
      var original := new JsonObject(if read && parses then content else []);
      outcome := original.Update(input);
      if outcome.Counted? && outcome.differences > 0 {
        content := if writes then original.items else damaged;
      }
      NoChangeNoWrite(old(content), input);
      NoChangeNoWrite([], input);
      MergeIntoNothing(input);
      NothingToCrash(input);
    }
  }

  lemma NothingToCrash(input: seq<Item>)
    ensures Safe([], input)
  {
  }

  lemma NoChangeNoWrite(items: seq<Item>, input: seq<Item>)
    ensures Count(items, input) == 0 ==> Merge(items, input) == items
  {
    if Count(items, input) == 0 { NoCountNoChange(items, input); }
  }
}

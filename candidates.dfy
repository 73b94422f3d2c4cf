/**
 * The Candidate Index and the Filter Engine of the mention directive: the
 * normalisation `ngOnInit` applies to the host's `mention` items (strings
 * promoted to records, unlabelled candidates dropped, the rest sorted by
 * label) and the filter-and-cap that `updateSearchList` uses to compute the
 * visible candidates.
 */
module Candidates {
  import opened JsText

  /** One element of the host's `mention` array: a plain string or a record
      whose fields (label field, filter fields) hold strings. */
  datatype Item = Text(text: string) | Record(fields: map<string, string>)

  /** `e[key]` when it is a string; None when it is `undefined`. */
  function Field(e: Item, key: string): Option<string>
  {
    match e
    case Record(f) => if key in f then Some(f[key]) else None
    case Text(_) => None
  }

  /** `e[labelKey]` is truthy. */
  predicate HasLabel(e: Item, labelKey: string)
  {
    Field(e, labelKey).Some? && Field(e, labelKey).value != ""
  }

  /** The label the sort compares (every candidate that reaches the sort has one). */
  function LabelOf(e: Item, labelKey: string): string
  {
    if Field(e, labelKey).Some? then Field(e, labelKey).value else ""
  }

  // ---------------------------------------------------------------------------
  // Order-preserving selection, used both by the label filter and the search filter

  /** The elements of `xs` that satisfy `p`, in their original order (`Array.prototype.filter`). */
  function Select(xs: seq<Item>, p: Item -> bool): seq<Item>
  {
    if xs == [] then []
    else if p(xs[0]) then [xs[0]] + Select(xs[1..], p)
    else Select(xs[1..], p)
  }

  /** `r` is obtained from `xs` by deleting elements. */
  predicate IsSubsequence(r: seq<Item>, xs: seq<Item>)
  {
    r == [] || (xs != [] && ((r[0] == xs[0] && IsSubsequence(r[1..], xs[1..])) || IsSubsequence(r, xs[1..])))
  }

  lemma {:induction false} SelectMembers(xs: seq<Item>, p: Item -> bool)
    ensures forall x :: x in Select(xs, p) <==> x in xs && p(x)
  {
    if xs != [] {
      SelectMembers(xs[1..], p);
      assert xs == [xs[0]] + xs[1..];
    }
  }

  lemma {:induction false} SelectIsSubsequence(xs: seq<Item>, p: Item -> bool)
    ensures IsSubsequence(Select(xs, p), xs)
  {
    if xs != [] {
      SelectIsSubsequence(xs[1..], p);
      var r := Select(xs, p);
      if p(xs[0]) {
        assert r[0] == xs[0] && r[1..] == Select(xs[1..], p);
      }
    }
  }

  lemma {:induction false} SelectAppend(xs: seq<Item>, x: Item, p: Item -> bool)
    ensures Select(xs + [x], p) == Select(xs, p) + (if p(x) then [x] else [])
  {
    if xs == [] {
      assert [x][1..] == [];
    } else {
      assert (xs + [x])[1..] == xs[1..] + [x];
      SelectAppend(xs[1..], x, p);
    }
  }

  /** Selecting from an already selected sequence changes nothing. */
  lemma {:induction false} SelectIdempotent(xs: seq<Item>, p: Item -> bool)
    ensures Select(Select(xs, p), p) == Select(xs, p)
  {
    if xs != [] {
      SelectIdempotent(xs[1..], p);
      if p(xs[0]) {
        var r := Select(xs, p);
        assert r[0] == xs[0] && r[1..] == Select(xs[1..], p);
      }
    }
  }

  /** When every element satisfies `p`, selecting keeps the sequence as it is. */
  lemma {:induction false} SelectAll(xs: seq<Item>, p: Item -> bool)
    requires forall x :: x in xs ==> p(x)
    ensures Select(xs, p) == xs
  {
    if xs != [] {
      SelectAll(xs[1..], p);
    }
  }

  // ---------------------------------------------------------------------------
  // Label order: `localeCompare` is modelled as code-point lexicographic order

  predicate LexLe(a: string, b: string)
  {
    a == [] || (b != [] && (a[0] < b[0] || (a[0] == b[0] && LexLe(a[1..], b[1..]))))
  }

  lemma {:induction false} LexLeTotal(a: string, b: string)
    ensures LexLe(a, b) || LexLe(b, a)
  {
    if a != [] && b != [] && a[0] == b[0] {
      LexLeTotal(a[1..], b[1..]);
    }
  }

  lemma {:induction false} LexLeTransitive(a: string, b: string, c: string)
    requires LexLe(a, b) && LexLe(b, c)
    ensures LexLe(a, c)
  {
    if a != [] && a[0] == b[0] && b[0] == c[0] {
      LexLeTransitive(a[1..], b[1..], c[1..]);
    }
  }

  lemma {:induction false} LexLeAntisymmetric(a: string, b: string)
    requires LexLe(a, b) && LexLe(b, a)
    ensures a == b
  {
    if a != [] {
      LexLeAntisymmetric(a[1..], b[1..]);
      assert a == [a[0]] + a[1..] && b == [b[0]] + b[1..];
    }
  }

  predicate LabelLe(a: Item, b: Item, labelKey: string)
  {
    LexLe(LabelOf(a, labelKey), LabelOf(b, labelKey))
  }

  /** Non-decreasing under the label comparison. */
  predicate SortedByLabel(xs: seq<Item>, labelKey: string)
  {
    forall i, j :: 0 <= i < j < |xs| ==> LabelLe(xs[i], xs[j], labelKey)
  }

  /** Places `x` before the first element whose label it does not exceed, so
      that of two equal labels the one that came first stays first. */
  function InsertByLabel(x: Item, xs: seq<Item>, labelKey: string): seq<Item>
  {
    if xs == [] || LabelLe(x, xs[0], labelKey) then [x] + xs
    else [xs[0]] + InsertByLabel(x, xs[1..], labelKey)
  }

  /** The sort of `ngOnInit` that compares labels with `localeCompare`; insertion
      sort, stable (see SortByLabelStable). */
  function SortByLabel(xs: seq<Item>, labelKey: string): seq<Item>
  {
    if xs == [] then [] else InsertByLabel(xs[0], SortByLabel(xs[1..], labelKey), labelKey)
  }

  lemma {:induction false} InsertByLabelPermutes(x: Item, xs: seq<Item>, labelKey: string)
    ensures multiset(InsertByLabel(x, xs, labelKey)) == multiset(xs) + multiset{x}
  {
    if xs != [] && !LabelLe(x, xs[0], labelKey) {
      InsertByLabelPermutes(x, xs[1..], labelKey);
      assert xs == [xs[0]] + xs[1..];
    }
  }

  /** Every element of an insertion is the inserted one or an old one. */
  lemma InsertByLabelMembers(x: Item, xs: seq<Item>, labelKey: string)
    ensures forall y :: y in InsertByLabel(x, xs, labelKey) <==> y == x || y in xs
  {
    InsertByLabelPermutes(x, xs, labelKey);
    forall y
      ensures y in InsertByLabel(x, xs, labelKey) <==> y == x || y in xs
    {
      assert y in InsertByLabel(x, xs, labelKey) <==> y in multiset(InsertByLabel(x, xs, labelKey));
      assert y in xs <==> y in multiset(xs);
    }
  }

  lemma SortedCons(a: Item, rest: seq<Item>, labelKey: string)
    requires SortedByLabel(rest, labelKey)
    requires forall y :: y in rest ==> LabelLe(a, y, labelKey)
    ensures SortedByLabel([a] + rest, labelKey)
  {
    var r := [a] + rest;
    forall i, j | 0 <= i < j < |r|
      ensures LabelLe(r[i], r[j], labelKey)
    {
      assert r[j] == rest[j - 1];
      if i > 0 {
        assert r[i] == rest[i - 1];
      }
    }
  }

  lemma SortedTail(xs: seq<Item>, labelKey: string)
    requires SortedByLabel(xs, labelKey) && xs != []
    ensures SortedByLabel(xs[1..], labelKey)
    ensures forall y :: y in xs[1..] ==> LabelLe(xs[0], y, labelKey)
  {
    forall i, j | 0 <= i < j < |xs[1..]|
      ensures LabelLe(xs[1..][i], xs[1..][j], labelKey)
    {
      assert xs[1..][i] == xs[i + 1] && xs[1..][j] == xs[j + 1];
    }
    forall y | y in xs[1..]
      ensures LabelLe(xs[0], y, labelKey)
    {
      var k :| 0 <= k < |xs[1..]| && xs[1..][k] == y;
      assert xs[k + 1] == y;
    }
  }

  lemma {:induction false} InsertByLabelSorted(x: Item, xs: seq<Item>, labelKey: string)
    requires SortedByLabel(xs, labelKey)
    ensures SortedByLabel(InsertByLabel(x, xs, labelKey), labelKey)
  {
    if xs == [] {
    } else if LabelLe(x, xs[0], labelKey) {
      SortedTail(xs, labelKey);
      forall y | y in xs
        ensures LabelLe(x, y, labelKey)
      {
        if y != xs[0] {
          assert y in xs[1..];
          LexLeTransitive(LabelOf(x, labelKey), LabelOf(xs[0], labelKey), LabelOf(y, labelKey));
        }
      }
      SortedCons(x, xs, labelKey);
    } else {
      LexLeTotal(LabelOf(x, labelKey), LabelOf(xs[0], labelKey));
      SortedTail(xs, labelKey);
      InsertByLabelSorted(x, xs[1..], labelKey);
      InsertByLabelMembers(x, xs[1..], labelKey);
      SortedCons(xs[0], InsertByLabel(x, xs[1..], labelKey), labelKey);
    }
  }

  /** The label sort returns a label-sorted permutation of its input. */
  lemma {:induction false} SortByLabelCorrect(xs: seq<Item>, labelKey: string)
    ensures SortedByLabel(SortByLabel(xs, labelKey), labelKey)
    ensures multiset(SortByLabel(xs, labelKey)) == multiset(xs)
  {
    if xs != [] {
      SortByLabelCorrect(xs[1..], labelKey);
      InsertByLabelSorted(xs[0], SortByLabel(xs[1..], labelKey), labelKey);
      InsertByLabelPermutes(xs[0], SortByLabel(xs[1..], labelKey), labelKey);
      assert xs == [xs[0]] + xs[1..];
    }
  }

  /** Sorting an already sorted sequence leaves it as it is. */
  lemma {:induction false} SortByLabelOfSorted(xs: seq<Item>, labelKey: string)
    requires SortedByLabel(xs, labelKey)
    ensures SortByLabel(xs, labelKey) == xs
  {
    if xs != [] {
      assert SortedByLabel(xs[1..], labelKey) by {
        forall i, j | 0 <= i < j < |xs[1..]|
          ensures LabelLe(xs[1..][i], xs[1..][j], labelKey)
        {
          assert xs[1..][i] == xs[i + 1] && xs[1..][j] == xs[j + 1];
        }
      }
      SortByLabelOfSorted(xs[1..], labelKey);
      if |xs| > 1 {
        assert LabelLe(xs[0], xs[1], labelKey);
        assert xs[1..][0] == xs[1];
      }
    }
  }

  /** The candidates whose label is `name`. */
  function SameLabel(name: string, labelKey: string): Item -> bool
  {
    e => LabelOf(e, labelKey) == name
  }

  lemma LexLeReflexive(a: string)
    ensures LexLe(a, a)
  {
    LexLeTotal(a, a);
  }

  /** Inserting `x` puts it before every candidate with its label. */
  lemma {:induction false} InsertByLabelSelect(x: Item, xs: seq<Item>, name: string, labelKey: string)
    ensures Select(InsertByLabel(x, xs, labelKey), SameLabel(name, labelKey))
            == (if LabelOf(x, labelKey) == name then [x] else []) + Select(xs, SameLabel(name, labelKey))
  {
    var p := SameLabel(name, labelKey);
    assert p(x) <==> LabelOf(x, labelKey) == name;
    var r := InsertByLabel(x, xs, labelKey);
    if xs == [] || LabelLe(x, xs[0], labelKey) {
      assert r == [x] + xs && r[0] == x && r[1..] == xs;
    } else {
      LexLeReflexive(LabelOf(x, labelKey));
      assert !p(xs[0]) || !p(x);
      InsertByLabelSelect(x, xs[1..], name, labelKey);
      var ins := InsertByLabel(x, xs[1..], labelKey);
      assert r == [xs[0]] + ins && r[0] == xs[0] && r[1..] == ins;
      assert Select(r, p) == (if p(xs[0]) then [xs[0]] else []) + Select(ins, p);
      assert Select(xs, p) == (if p(xs[0]) then [xs[0]] else []) + Select(xs[1..], p);
    }
  }

  /** The sort is stable: candidates with the same label keep their input order. */
  lemma {:induction false} SortByLabelStable(xs: seq<Item>, name: string, labelKey: string)
    ensures Select(SortByLabel(xs, labelKey), SameLabel(name, labelKey)) == Select(xs, SameLabel(name, labelKey))
  {
    if xs != [] {
      SortByLabelStable(xs[1..], name, labelKey);
      InsertByLabelSelect(xs[0], SortByLabel(xs[1..], labelKey), name, labelKey);
    }
  }

  // ---------------------------------------------------------------------------
  // Normalisation (`ngOnInit`)

  /** The record `{[labelKey]: s}` built for a plain string candidate. */
  function Promote(e: Item, labelKey: string): Item
  {
    match e
    case Text(s) => Record(map[labelKey := s])
    case Record(_) => e
  }

  /** The `map` applied when the first candidate is a string; otherwise the candidates as given. */
  function Promoted(xs: seq<Item>, labelKey: string): (r: seq<Item>)
    ensures |r| == |xs|
    ensures xs != [] && xs[0].Text? ==>
              forall i :: 0 <= i < |xs| ==> r[i] == (if xs[i].Text? then Record(map[labelKey := xs[i].text]) else xs[i])
    ensures !(xs != [] && xs[0].Text?) ==> r == xs
  {
    if xs != [] && xs[0].Text? then seq(|xs|, i requires 0 <= i < |xs| => Promote(xs[i], labelKey))
    else xs
  }

  /** `this.items` after `ngOnInit`; an absent or empty collection is left untouched. */
  function Normalize(items: Option<seq<Item>>, labelKey: string): Option<seq<Item>>
  {
    if items.None? || items.value == [] then items
    else
      var kept := Select(Promoted(items.value, labelKey), e => HasLabel(e, labelKey));
      Some(SortByLabel(kept, labelKey))
  }

  /** After normalisation every candidate has a truthy label, the sequence is sorted by
      label, and it is a permutation of the labelled candidates (after promotion). */
  lemma NormalizeCorrect(items: Option<seq<Item>>, labelKey: string)
    requires items.Some? && items.value != []
    ensures Normalize(items, labelKey).Some?
    ensures var r := Normalize(items, labelKey).value;
      && (forall e :: e in r ==> HasLabel(e, labelKey))
      && SortedByLabel(r, labelKey)
      && multiset(r) == multiset(Select(Promoted(items.value, labelKey), e => HasLabel(e, labelKey)))
      && (forall e :: e in r <==> e in Promoted(items.value, labelKey) && HasLabel(e, labelKey))
  {
    var p := e => HasLabel(e, labelKey);
    var kept := Select(Promoted(items.value, labelKey), p);
    SelectMembers(Promoted(items.value, labelKey), p);
    SortByLabelCorrect(kept, labelKey);
    var r := SortByLabel(kept, labelKey);
    forall e
      ensures e in r <==> e in kept
    {
      assert e in r <==> e in multiset(r);
      assert e in kept <==> e in multiset(kept);
    }
  }

  /** When the first candidate is a string, every non-empty string candidate ends up as
      the record `{[labelKey]: s}`, and everything retained is a promoted input. */
  lemma NormalizePromotesStrings(items: Option<seq<Item>>, labelKey: string)
    requires items.Some? && items.value != [] && items.value[0].Text?
    ensures var xs, r := items.value, Normalize(items, labelKey).value;
      && (forall s :: Text(s) in xs && s != "" ==> Record(map[labelKey := s]) in r)
      && (forall e :: e in r ==> exists i :: 0 <= i < |xs| && e == Promote(xs[i], labelKey))
  {
    var xs := items.value;
    NormalizeCorrect(items, labelKey);
    var promoted := Promoted(xs, labelKey);
    forall s | Text(s) in xs && s != ""
      ensures Record(map[labelKey := s]) in promoted
    {
      var i :| 0 <= i < |xs| && xs[i] == Text(s);
      assert promoted[i] == Record(map[labelKey := s]);
    }
  }

  /** Normalising twice is normalising once. */
  lemma NormalizeIdempotent(items: Option<seq<Item>>, labelKey: string)
    ensures Normalize(Normalize(items, labelKey), labelKey) == Normalize(items, labelKey)
  {
    if items.Some? && items.value != [] {
      NormalizeCorrect(items, labelKey);
      var r := Normalize(items, labelKey).value;
      if r != [] {
        assert HasLabel(r[0], labelKey);
        assert Promoted(r, labelKey) == r;
        SelectAll(r, e => HasLabel(e, labelKey));
        SortByLabelOfSorted(r, labelKey);
      }
    }
  }

  // ---------------------------------------------------------------------------
  // Filter engine (`updateSearchList`)

  /** The `hasValue` flag left by `_filterKeys.forEach(...)` for candidate `e`: the keys
      are tried in order until one matches; reading a missing field before that throws. */
  function KeysMatch(e: Item, keys: seq<string>, needle: string): Result<bool>
  {
    if keys == [] then Ok(false)
    else match Field(e, keys[0])
      case None => Fail(UndefinedProperty("toLowerCase"))
      case Some(v) => if Includes(ToLower(v), needle) then Ok(true) else KeysMatch(e, keys[1..], needle)
  }

  /** Field `key` of `e` is present and its lower-cased value contains `needle`. */
  predicate KeyHits(e: Item, key: string, needle: string)
  {
    Field(e, key).Some? && Includes(ToLower(Field(e, key).value), needle)
  }

  /** Key `i` is the first that decides the match: it hits and every key before it is present. */
  predicate HitAt(e: Item, keys: seq<string>, needle: string, i: int)
  {
    0 <= i < |keys| && KeyHits(e, keys[i], needle) && forall j :: 0 <= j < i ==> Field(e, keys[j]).Some?
  }

  /** Key `i` is missing and no key before it hits: reading it throws. */
  predicate MissAt(e: Item, keys: seq<string>, needle: string, i: int)
  {
    0 <= i < |keys| && Field(e, keys[i]).None? && forall j :: 0 <= j < i ==> !KeyHits(e, keys[j], needle)
  }

  /** Past a present key that does not hit, the decisive key moves down by one. */
  lemma ShiftPastMiss(e: Item, keys: seq<string>, needle: string, i: int)
    requires keys != [] && Field(e, keys[0]).Some? && !KeyHits(e, keys[0], needle) && 0 <= i
    ensures HitAt(e, keys, needle, i + 1) <==> HitAt(e, keys[1..], needle, i)
    ensures MissAt(e, keys, needle, i + 1) <==> MissAt(e, keys[1..], needle, i)
    ensures !HitAt(e, keys, needle, 0) && !MissAt(e, keys, needle, 0)
  {
    assert forall j :: 0 <= j < |keys[1..]| ==> keys[1..][j] == keys[j + 1];
    if HitAt(e, keys[1..], needle, i) || MissAt(e, keys[1..], needle, i) {
      forall j | 0 <= j < i + 1
        ensures Field(e, keys[j]).Some? || !KeyHits(e, keys[j], needle)
      {
      }
    }
  }

  /** A candidate matches iff some key hits and every key before it is present; the
      callback throws iff some key is missing and no key before it hits. */
  lemma {:induction false} KeysMatchMeaning(e: Item, keys: seq<string>, needle: string)
    ensures KeysMatch(e, keys, needle) == Ok(true) <==> exists i :: HitAt(e, keys, needle, i)
    ensures KeysMatch(e, keys, needle).Fail? <==> exists i :: MissAt(e, keys, needle, i)
  {
    if keys == [] {
    } else if KeyHits(e, keys[0], needle) {
      assert HitAt(e, keys, needle, 0);
      forall i | 0 < i
        ensures !MissAt(e, keys, needle, i)
      {
      }
    } else if Field(e, keys[0]).None? {
      assert MissAt(e, keys, needle, 0);
      forall i | 0 < i
        ensures !HitAt(e, keys, needle, i)
      {
      }
    } else {
      KeysMatchMeaning(e, keys[1..], needle);
      if exists i :: HitAt(e, keys, needle, i) {
        var i :| HitAt(e, keys, needle, i);
        ShiftPastMiss(e, keys, needle, i - 1);
      }
      if exists i :: HitAt(e, keys[1..], needle, i) {
        var i :| HitAt(e, keys[1..], needle, i);
        ShiftPastMiss(e, keys, needle, i);
      }
      if exists i :: MissAt(e, keys, needle, i) {
        var i :| MissAt(e, keys, needle, i);
        ShiftPastMiss(e, keys, needle, i - 1);
      }
      if exists i :: MissAt(e, keys[1..], needle, i) {
        var i :| MissAt(e, keys[1..], needle, i);
        ShiftPastMiss(e, keys, needle, i);
      }
    }
  }

  /** The `forEach` loop over the filter keys that sets `hasValue`. */
  method HasValue(e: Item, keys: seq<string>, needle: string) returns (r: Result<bool>)
    ensures r == KeysMatch(e, keys, needle)
  {
    var hasValue := false;
    var i := 0;
    while i < |keys|
      invariant 0 <= i <= |keys|
      invariant KeysMatch(e, keys, needle) == if hasValue then Ok(true) else KeysMatch(e, keys[i..], needle)
    {
      if !hasValue {
        assert keys[i..][0] == keys[i] && keys[i..][1..] == keys[i + 1..];
        var v := Field(e, keys[i]);
        if v.None? {
          return Fail(UndefinedProperty("toLowerCase"));
        }
        hasValue := Includes(ToLower(v.value), needle);
      }
      i := i + 1;
    }
    assert keys[i..] == [];
    return Ok(hasValue);
  }

  /** `items.filter(e => hasValue)`: the callback runs front to back and the first
      TypeError escapes. */
  function FilterSpec(xs: seq<Item>, keys: seq<string>, needle: string): Result<seq<Item>>
    decreases |xs|
  {
    if xs == [] then Ok([])
    else match FilterSpec(xs[..|xs| - 1], keys, needle)
      case Fail(err) => Fail(err)
      case Ok(kept) =>
        match KeysMatch(xs[|xs| - 1], keys, needle)
        case Fail(err) => Fail(err)
        case Ok(hit) => Ok(if hit then kept + [xs[|xs| - 1]] else kept)
  }

  /** A failure on a prefix is the failure of the whole filter. */
  lemma {:induction false} FilterSpecFailPrefix(xs: seq<Item>, i: nat, keys: seq<string>, needle: string)
    requires i <= |xs| && FilterSpec(xs[..i], keys, needle).Fail?
    ensures FilterSpec(xs, keys, needle) == FilterSpec(xs[..i], keys, needle)
    decreases |xs| - i
  {
    if i < |xs| {
      var ys := xs[..|xs| - 1];
      assert ys[..i] == xs[..i];
      FilterSpecFailPrefix(ys, i, keys, needle);
    } else {
      assert xs[..i] == xs;
    }
  }

  /** The filter over the candidates, one callback per candidate. */
  method FilterItems(xs: seq<Item>, keys: seq<string>, needle: string) returns (r: Result<seq<Item>>)
    ensures r == FilterSpec(xs, keys, needle)
  {
    var kept: seq<Item> := [];
    var i := 0;
    while i < |xs|
      invariant 0 <= i <= |xs|
      invariant FilterSpec(xs[..i], keys, needle) == Ok(kept)
    {
      var hit := HasValue(xs[i], keys, needle);
      assert xs[..i + 1][..i] == xs[..i] && xs[..i + 1][i] == xs[i];
      if hit.Fail? {
        FilterSpecFailPrefix(xs, i + 1, keys, needle);
        return Fail(hit.error);
      }
      if hit.value {
        kept := kept + [xs[i]];
      }
      i := i + 1;
    }
    assert xs[..i] == xs;
    return Ok(kept);
  }

  /** The predicate the search filter keeps candidates by. */
  function MatchesSearch(keys: seq<string>, needle: string): Item -> bool
  {
    e => KeysMatch(e, keys, needle) == Ok(true)
  }

  /** The filter succeeds iff no candidate's callback throws, and then keeps exactly the
      matching candidates in their original order; with no throw, filtering its own
      result again changes nothing. */
  lemma {:induction false} FilterSpecMeaning(xs: seq<Item>, keys: seq<string>, needle: string)
    ensures FilterSpec(xs, keys, needle).Ok? <==> forall x :: x in xs ==> KeysMatch(x, keys, needle).Ok?
    ensures FilterSpec(xs, keys, needle).Ok? ==>
      FilterSpec(xs, keys, needle).value == Select(xs, MatchesSearch(keys, needle))
    decreases |xs|
  {
    if xs != [] {
      var ys, x := xs[..|xs| - 1], xs[|xs| - 1];
      assert xs == ys + [x];
      assert forall y :: y in xs <==> y in ys || y == x;
      FilterSpecMeaning(ys, keys, needle);
      SelectAppend(ys, x, MatchesSearch(keys, needle));
      if FilterSpec(ys, keys, needle).Ok? && KeysMatch(x, keys, needle).Ok? {
        assert FilterSpec(xs, keys, needle).Ok?;
      } else if FilterSpec(ys, keys, needle).Fail? {
        var y :| y in ys && !KeysMatch(y, keys, needle).Ok?;
        assert y in xs;
      } else {
        assert x in xs;
      }
    }
  }

  lemma FilterIdempotent(xs: seq<Item>, keys: seq<string>, needle: string)
    requires FilterSpec(xs, keys, needle).Ok?
    ensures FilterSpec(FilterSpec(xs, keys, needle).value, keys, needle) == FilterSpec(xs, keys, needle)
  {
    var p := MatchesSearch(keys, needle);
    FilterSpecMeaning(xs, keys, needle);
    var r := Select(xs, p);
    SelectMembers(xs, p);
    FilterSpecMeaning(r, keys, needle);
    SelectIdempotent(xs, p);
  }

  /** `matches.slice(0, maxItems)` when `maxItems > 0`. */
  function Cap(xs: seq<Item>, maxItems: int): seq<Item>
  {
    if maxItems > 0 && maxItems < |xs| then xs[..maxItems] else xs
  }

  /** Filtering is on unless `disableSearch` is set or the search string is null or empty. */
  predicate Searching(disableSearch: bool, searchString: Option<string>)
  {
    !disableSearch && searchString.Some? && searchString.value != ""
  }

  /** The `matches` that `updateSearchList` computes. */
  function VisibleCandidates(items: Option<seq<Item>>, disableSearch: bool, searchString: Option<string>,
                             keys: seq<string>, maxItems: int): Result<seq<Item>>
  {
    if items.None? then Ok([])
    else if Searching(disableSearch, searchString) then
      match FilterSpec(items.value, keys, ToLower(searchString.value))
      case Fail(err) => Fail(err)
      case Ok(kept) => Ok(Cap(kept, maxItems))
    else Ok(Cap(items.value, maxItems))
  }

  /** The visible candidates: none without items; all of them (capped) when not searching;
      otherwise the first `maxItems` of the matching candidates in index order, or the
      TypeError of a candidate missing a filter field. The cap is a prefix of the
      uncapped result, of length `maxItems` exactly when `0 < maxItems <` its length. */
  lemma VisibleCandidatesMeaning(items: Option<seq<Item>>, disableSearch: bool, searchString: Option<string>,
                                 keys: seq<string>, maxItems: int)
    ensures items.None? ==> VisibleCandidates(items, disableSearch, searchString, keys, maxItems) == Ok([])
    ensures items.Some? && !Searching(disableSearch, searchString) ==>
      VisibleCandidates(items, disableSearch, searchString, keys, maxItems) == Ok(Cap(items.value, maxItems))
    ensures items.Some? && Searching(disableSearch, searchString) ==>
      var needle := ToLower(searchString.value);
      var r := VisibleCandidates(items, disableSearch, searchString, keys, maxItems);
      && (r.Ok? <==> forall x :: x in items.value ==> KeysMatch(x, keys, needle).Ok?)
      && (r.Ok? ==> r.value == Cap(Select(items.value, MatchesSearch(keys, needle)), maxItems))
    ensures forall xs: seq<Item> :: Cap(xs, maxItems) == xs[..|Cap(xs, maxItems)|]
    ensures forall xs: seq<Item> :: |Cap(xs, maxItems)| == if 0 < maxItems < |xs| then maxItems else |xs|
  {
    if items.Some? && Searching(disableSearch, searchString) {
      FilterSpecMeaning(items.value, keys, ToLower(searchString.value));
    }
  }

  /** Filtering and capping keep the label order of a sorted index. */
  lemma {:induction false} SelectKeepsOrder(xs: seq<Item>, p: Item -> bool, labelKey: string)
    requires SortedByLabel(xs, labelKey)
    ensures SortedByLabel(Select(xs, p), labelKey)
  {
    if xs != [] {
      SortedTail(xs, labelKey);
      SelectKeepsOrder(xs[1..], p, labelKey);
      if p(xs[0]) {
        var rest := Select(xs[1..], p);
        SelectMembers(xs[1..], p);
        SortedCons(xs[0], rest, labelKey);
      }
    }
  }
}

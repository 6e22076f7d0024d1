/**
 * Helpers of the data import command
 * (server/anox/timetracker/management/commands/importdata.py): the tag id
 * remapping table, unique task names, chunking, colours and file names.
 */
module ImportData {
  import opened Wrappers
  import opened Decimal
  import opened Text

  /** The Python exceptions the helpers raise. */
  datatype PyError = ValueError | IndexError

  // ---------------------------------------------------------------------
  // Tag consolidation
  // ---------------------------------------------------------------------

  /**
   * The table `add` leaves behind, as written: `old_id` and every key whose
   * value already is `new_id` are set to `new_id`.
   */
  function Consolidate(m: map<string, string>, oldId: string, newId: string): (r: map<string, string>)
    ensures oldId in r && r[oldId] == newId
    ensures forall k :: k in r ==> r[k] == newId || (k in m && r[k] == m[k])
  {
    map k | k in m.Keys + {oldId} :: if k == oldId || m[k] == newId then newId else m[k]
  }

  /** The rewrite of keys that already point at `new_id` changes nothing: `add` only sets `old_id`. */
  lemma ConsolidateIsUpdate(m: map<string, string>, oldId: string, newId: string)
    ensures Consolidate(m, oldId, newId) == m[oldId := newId]
  {
    var c := Consolidate(m, oldId, newId);
    assert c.Keys == m[oldId := newId].Keys;
    forall k | k in c
      ensures c[k] == m[oldId := newId][k]
    {
    }
  }

  /** The id a possibly consolidated tag id now stands for. */
  function TargetId(m: map<string, string>, id: string): (r: string)
    ensures id !in m ==> r == id
  {
    if id in m then m[id] else id
  }

  /** After `add(old, new)`, `old` is mapped to `new` and every other id keeps its target. */
  lemma ConsolidateTargets(m: map<string, string>, oldId: string, newId: string)
    ensures oldId in Consolidate(m, oldId, newId)
    ensures TargetId(Consolidate(m, oldId, newId), oldId) == newId
    ensures forall id :: id != oldId ==> TargetId(Consolidate(m, oldId, newId), id) == TargetId(m, id)
    ensures Consolidate(m, oldId, newId).Keys == m.Keys + {oldId}
  {
    ConsolidateIsUpdate(m, oldId, newId);
  }

  /** No id is mapped to an id that is itself mapped: one lookup gives the final id. */
  predicate Resolved(m: map<string, string>) {
    forall k :: k in m ==> m[k] !in m
  }

  /**
   * What the comment in `add` describes: `old_id` and the keys that pointed
   * at it are sent to where `new_id` now leads, so no lookup is left on an
   * id that is itself mapped.
   */
  function Redirect(m: map<string, string>, oldId: string, newId: string): (r: map<string, string>)
    ensures oldId in r && r[oldId] == TargetId(m, newId)
    ensures forall k :: k in r ==> r[k] == TargetId(m, newId) || (k in m && r[k] == m[k])
  {
    var target := TargetId(m, newId);
    map k | k in m.Keys + {oldId} :: if k == oldId || m[k] == oldId then target else m[k]
  }

  /**
   * Unless `new_id` already leads back to `old_id`, redirecting keeps every
   * lookup final, sends `old_id` and whatever pointed at it to `new_id`'s
   * target, and leaves every other target alone.
   */
  lemma RedirectResolves(m: map<string, string>, oldId: string, newId: string)
    requires Resolved(m) && TargetId(m, newId) != oldId
    ensures Resolved(Redirect(m, oldId, newId))
    ensures TargetId(Redirect(m, oldId, newId), oldId) == TargetId(m, newId)
    ensures TargetId(Redirect(m, oldId, newId), newId) == TargetId(m, newId)
    ensures forall k :: k in m && m[k] == oldId ==> TargetId(Redirect(m, oldId, newId), k) == TargetId(m, newId)
    ensures forall k :: k in m && k != oldId && m[k] != oldId ==> TargetId(Redirect(m, oldId, newId), k) == m[k]
  {
    var target := TargetId(m, newId);
    var r := Redirect(m, oldId, newId);
    assert target !in m by {
      if newId in m {
        assert m[newId] !in m;
      }
    }
    forall k | k in r
      ensures r[k] !in r
    {
      if k != oldId && m[k] != oldId {
        assert m[k] !in m;
      }
    }
  }

  /**
   * The caller's sequence for three tags with one canonical name: keeping
   * `B` over `A`, then `A` (still the name on record) over `C`, adds
   * `C -> A` while `A -> B` is in the table; redirecting sends `C` to `B`.
   */
  lemma RedirectThroughMappedId()
    ensures Redirect(map["A" := "B"], "C", "A") == map["A" := "B", "C" := "B"]
    ensures Resolved(Redirect(map["A" := "B"], "C", "A"))
    ensures !Resolved(Consolidate(map["A" := "B"], "C", "A"))
  {
    var m := map["A" := "B"];
    RedirectResolves(m, "C", "A");
    var r := Redirect(m, "C", "A");
    assert r.Keys == {"A", "C"};
    ConsolidateIsUpdate(m, "C", "A");
    var c := Consolidate(m, "C", "A");
    assert "C" in c && c["C"] in c;
  }

  /**
   * The comment's own example: with `Cat` mapped to `cat`, adding
   * `cat -> CAT` as written leaves `Cat` on `cat`, an id that is now
   * itself mapped; redirecting sends both to `CAT`.
   */
  lemma ConsolidateLeavesStaleTarget()
    ensures Resolved(map["Cat" := "cat"])
    ensures Consolidate(map["Cat" := "cat"], "cat", "CAT") == map["Cat" := "cat", "cat" := "CAT"]
    ensures !Resolved(Consolidate(map["Cat" := "cat"], "cat", "CAT"))
    ensures Redirect(map["Cat" := "cat"], "cat", "CAT") == map["Cat" := "CAT", "cat" := "CAT"]
  {
    var m := map["Cat" := "cat"];
    ConsolidateIsUpdate(m, "cat", "CAT");
    assert m["cat" := "CAT"] == map["Cat" := "cat", "cat" := "CAT"];
    var c := Consolidate(m, "cat", "CAT");
    assert "Cat" in c && c["Cat"] in c;
    var r := Redirect(m, "cat", "CAT");
    assert r.Keys == {"Cat", "cat"};
  }

  /**
   * Setting `oldId` and the keys that already point at `newId` to `newId`
   * gives the consolidated table.
   */
  lemma UpdatedKeys(before: map<string, string>, oldId: string, newId: string,
                    keys: seq<string>, after: map<string, string>)
    requires |keys| >= 1 && keys[0] == oldId
    requires forall i :: 1 <= i < |keys| ==> keys[i] in before && before[keys[i]] == newId
    requires forall k :: k in before && before[k] == newId ==> k in keys
    requires forall k :: k in after <==> k in before || k in keys
    requires forall j :: 0 <= j < |keys| ==> after[keys[j]] == newId
    requires forall k :: k in before && k !in keys ==> after[k] == before[k]
    ensures after == Consolidate(before, oldId, newId)
  {
    var target := Consolidate(before, oldId, newId);
    assert after.Keys == target.Keys by {
      forall k | k in after
        ensures k in target
      {

      }
    }
    forall k | k in target
      ensures after[k] == target[k]
    {
      if k == oldId {
        assert after[keys[0]] == newId;
      } else if before[k] == newId {
        var j :| 0 <= j < |keys| && keys[j] == k;
      } else {
        assert k !in keys;
      }
    }
  }

  /** The table of tag ids that were merged into another tag. */
  class TagConsolidator {
    var oldIdToNewId: map<string, string>

    constructor ()
      ensures oldIdToNewId == map[]
    {
      oldIdToNewId := map[];
    }

    /**
     * Maps `oldId` to `newId`, and rewrites the keys already pointing at
     * `newId`, collected first and updated afterwards, as the source does.
     */
    method Add(oldId: string, newId: string)
      modifies this
      ensures oldIdToNewId == Consolidate(old(oldIdToNewId), oldId, newId)
      ensures oldIdToNewId == old(oldIdToNewId)[oldId := newId]
      ensures GetTargetId(oldId) == newId && IsMapped(oldId)
    {
      var keysToChange := [oldId];
      ghost var before := oldIdToNewId;
      var unvisited := oldIdToNewId.Keys;
      while unvisited != {}
        invariant oldIdToNewId == before
        invariant unvisited <= before.Keys
        invariant |keysToChange| >= 1 && keysToChange[0] == oldId
        invariant forall i :: 1 <= i < |keysToChange| ==>
          keysToChange[i] in before && before[keysToChange[i]] == newId
        invariant forall k :: k in before && k !in unvisited && before[k] == newId ==> k in keysToChange
        decreases |unvisited|
      {
        var key :| key in unvisited;
        if oldIdToNewId[key] == newId {
          keysToChange := keysToChange + [key];
        }
        unvisited := unvisited - {key};
      }

      var i := 0;
      while i < |keysToChange|
        invariant 0 <= i <= |keysToChange|
        invariant forall k :: k in oldIdToNewId <==> k in before || k in keysToChange[..i]
        invariant forall j :: 0 <= j < i ==> oldIdToNewId[keysToChange[j]] == newId
        invariant forall k :: k in before && k !in keysToChange[..i] ==> oldIdToNewId[k] == before[k]
      {
        oldIdToNewId := oldIdToNewId[keysToChange[i] := newId];
        i := i + 1;
      }

      assert keysToChange[..i] == keysToChange;
      UpdatedKeys(before, oldId, newId, keysToChange, oldIdToNewId);
      ConsolidateIsUpdate(before, oldId, newId);
    }

    /** The id tags linked to `id` are moved to. */
    function GetTargetId(id: string): (r: string)
      reads this
      ensures IsMapped(id) ==> r == oldIdToNewId[id]
      ensures !IsMapped(id) ==> r == id
    {
      TargetId(oldIdToNewId, id)
    }

    /** Whether the tag `id` was merged into another and is not imported itself. */
    predicate IsMapped(id: string)
      reads this
      ensures !IsMapped(id) ==> TargetId(oldIdToNewId, id) == id
    {
      id in oldIdToNewId
    }
  }

  // ---------------------------------------------------------------------
  // File names
  // ---------------------------------------------------------------------

  /** `str.rindex`: the position of the last `c` in `s`, if any. */
  function LastIndexOf(s: string, c: char): (r: Option<nat>)
    ensures r.None? <==> c !in s
    ensures r.Some? ==> r.value < |s| && s[r.value] == c && c !in s[r.value + 1..]
    decreases |s|
  {
    if s == [] then None
    else if s[|s| - 1] == c then Some(|s| - 1)
    else
      var r := LastIndexOf(s[..|s| - 1], c);
      assert s == s[..|s| - 1] + [s[|s| - 1]];
      if r.Some? then
        assert s[r.value + 1..] == s[..|s| - 1][r.value + 1..] + [s[|s| - 1]];
        r
      else r
  }

  /** An occurrence of `c` with no `c` after it is the last one. */
  lemma LastIndexOfIs(s: string, c: char, i: nat)
    requires i < |s| && s[i] == c && c !in s[i + 1..]
    ensures LastIndexOf(s, c) == Some(i)
  {
  }

  /** The kind of an export file, `tags` for `tags_3.json`: everything before the last `_`. */
  function FileNameToFileType(name: string): (r: Result<string, PyError>)
    ensures r.Failure? <==> '_' !in name
    ensures r.Failure? ==> r.error == ValueError
    ensures r.Success? ==> exists rest :: '_' !in rest && name == r.value + "_" + rest
  {
    match LastIndexOf(name, '_')
    case None => Failure(ValueError)
    case Some(i) =>
      assert name == name[..i] + "_" + name[i + 1..];
      Success(name[..i])
  }

  /** The kind is read back from any name built as kind, `_`, and a rest without `_`. */
  lemma FileTypeOfName(kind: string, rest: string)
    requires '_' !in rest
    ensures FileNameToFileType(kind + "_" + rest) == Success(kind)
  {
    var name := kind + "_" + rest;
    assert name[|kind|] == '_';
    assert name[|kind| + 1..] == rest;
    LastIndexOfIs(name, '_', |kind|);
    assert name[..|kind|] == kind;
  }

  /** A name without `_` has no kind. */
  lemma FileTypeOfPlainName(name: string)
    requires '_' !in name
    ensures FileNameToFileType(name) == Failure(ValueError)
  {
  }

  lemma FileNameExamples()
    ensures FileNameToFileType("tags_1.json") == Success("tags")
    ensures FileNameToFileType("time_entries_12.json") == Success("time_entries")
    ensures FileNameToFileType("tags.json") == Failure(ValueError)
  {
    FileTypeOfName("tags", "1.json");
    assert "tags" + "_" + "1.json" == "tags_1.json";
    FileTypeOfName("time_entries", "12.json");
    assert "time_entries" + "_" + "12.json" == "time_entries_12.json";
    FileTypeOfPlainName("tags.json");
  }

  // ---------------------------------------------------------------------
  // Unique task names
  // ---------------------------------------------------------------------

  /** The longest task name the database column holds. */
  const MaxNameLength := 255

  /** Python's `s[:-k]` for a positive `k`: all but the last `k` characters, or nothing. */
  function DropLast(s: string, k: nat): (r: string)
    requires k > 0
    ensures |r| == if k >= |s| then 0 else |s| - k
    ensures r == s[..|r|]
  {
    if k >= |s| then [] else s[..|s| - k]
  }

  /**
   * The renamed form for `counter`: the name, shortened by the suffix's
   * length (`name[:-append_len]`) if `trim`, then `__` and the counter.
   */
  function Suffixed(base: string, counter: nat, trim: bool): (r: string)
    ensures EndsWith(r, "__" + NatToString(counter))
    ensures !trim ==> |base| <= |r| && r[..|base|] == base
    ensures trim && |base| >= |NatToString(counter)| + 2 ==> |r| == |base|
  {
    (if trim then DropLast(base, |NatToString(counter)| + 2) else base) + "__" + NatToString(counter)
  }

  /** `s` is `base` renamed for `counter`, shortened or not. */
  predicate RenamedFrom(s: string, base: string, counter: nat) {
    s == Suffixed(base, counter, false) || s == Suffixed(base, counter, true)
  }

  /** The description a renamed task gets: where it came from, then the old description. */
  function RenamedDescription(name: string, canonicalName: string, description: string): (r: string)
    ensures EndsWith(r, description)
    ensures 15 + |name| <= |r| && r[..15 + |name|] == "Original name: " + name
  {
    "Original name: " + name + ". Original canonical name: " + canonicalName + "\n" + description
  }

  /** The number after the last `_` of a name, if what follows it is one. */
  function SuffixNumber(s: string): Option<nat> {
    match LastIndexOf(s, '_')
    case None => None
    case Some(i) =>
      if s[i + 1..] != [] && AllDigits(s[i + 1..]) then Some(ParseNat(s[i + 1..])) else None
  }

  /** The counter can be read back from a renamed name, so different counters give different names. */
  lemma SuffixedNumber(base: string, counter: nat, trim: bool)
    ensures SuffixNumber(Suffixed(base, counter, trim)) == Some(counter)
  {
    var digits := NatToString(counter);
    var prefix := (if trim then DropLast(base, |digits| + 2) else base) + "_";
    var s := Suffixed(base, counter, trim);
    assert s == prefix + "_" + digits;
    var i := |prefix|;
    assert s[i] == '_';
    assert s[i + 1..] == digits;
    assert '_' !in digits by {
      forall j | 0 <= j < |digits|
        ensures digits[j] != '_'
      {
        assert IsDigit(digits[j]);
      }
    }
    LastIndexOfIs(s, '_', i);
    ParseNatToString(counter);
  }

  lemma SuffixedInjective(base: string, m: nat, trimM: bool, base': string, n: nat, trimN: bool)
    requires Suffixed(base, m, trimM) == Suffixed(base', n, trimN)
    ensures m == n
  {
    SuffixedNumber(base, m, trimM);
    SuffixedNumber(base', n, trimN);
  }

  /** The taken names that end in a counter of at least `bound`: the renamings still to try. */
  function TakenFrom(names: set<string>, bound: nat): set<string> {
    set t | t in names && SuffixNumber(t).Some? && SuffixNumber(t).value >= bound
  }

  /**
   * Once the renamed form for `counter` is found taken, fewer taken names
   * are left with a counter still to try.
   */
  lemma TakenShrinks(names: set<string>, base: string, counter: nat, trim: bool)
    requires Suffixed(base, counter, trim) in names
    ensures |TakenFrom(names, counter + 1)| < |TakenFrom(names, counter)|
  {
    var current := Suffixed(base, counter, trim);
    SuffixedNumber(base, counter, trim);
    assert TakenFrom(names, counter + 1) < TakenFrom(names, counter) by {
      assert current in TakenFrom(names, counter) && current !in TakenFrom(names, counter + 1);
    }
    SubsetSize(TakenFrom(names, counter + 1), TakenFrom(names, counter));
  }

  lemma TakenMonotone(names: set<string>, bound: nat)
    ensures |TakenFrom(names, bound + 1)| <= |TakenFrom(names, bound)|
  {
    SubsetSize(TakenFrom(names, bound + 1), TakenFrom(names, bound));
  }

  /** A subset is no larger than its superset, and a proper subset is smaller. */
  lemma {:induction false} SubsetSize<T>(a: set<T>, b: set<T>)
    requires a <= b
    ensures |a| <= |b|
    ensures a < b ==> |a| < |b|
  {
    if a != {} {
      var x :| x in a;
      SubsetSize(a - {x}, b - {x});
    }
  }

  /** A task as the import command builds it before saving. */
  class Task {
    var name: string
    var canonicalName: string
    var description: string

    constructor (name: string, canonicalName: string, description: string)
      ensures this.name == name && this.canonicalName == canonicalName && this.description == description
    {
      this.name := name;
      this.canonicalName := canonicalName;
      this.description := description;
    }
  }

  /** The canonical task names already taken, shared by the whole import. */
  class NameSet {
    var names: set<string>

    constructor (names: set<string>)
      ensures this.names == names
    {
      this.names := names;
    }
  }

  /**
   * Renames `task` with `__1`, `__2`, ... until its canonical name is not
   * taken, then takes it. The loop ends because the renamed canonical names
   * differ from one another and each one that is tried is a taken name.
   */
  method EnsureTaskCanonicalName(task: Task, canonicalNames: NameSet)
    modifies task, canonicalNames
    ensures task.canonicalName !in old(canonicalNames.names)
    ensures canonicalNames.names == old(canonicalNames.names) + {task.canonicalName}
    ensures old(task.canonicalName) !in old(canonicalNames.names) ==>
      task.name == old(task.name) && task.canonicalName == old(task.canonicalName) &&
      task.description == old(task.description)
    ensures old(task.canonicalName) in old(canonicalNames.names) ==>
      task.description == RenamedDescription(old(task.name), old(task.canonicalName), old(task.description)) &&
      SuffixNumber(task.canonicalName).Some? &&
      RenamedFrom(task.canonicalName, old(task.canonicalName), SuffixNumber(task.canonicalName).value) &&
      RenamedFrom(task.name, old(task.name), SuffixNumber(task.canonicalName).value)
  {
    var description := task.description;
    var name := task.name;
    var canonicalName := task.canonicalName;

    var counter: nat := 1;
    ghost var tried: nat := 0;
    ghost var trim := false;
    while task.canonicalName in canonicalNames.names
      invariant canonicalNames.names == old(canonicalNames.names)
      invariant counter == tried + 1
      invariant tried == 0 ==>
        task.name == name && task.canonicalName == canonicalName && task.description == description
      invariant tried > 0 ==>
        task.description == RenamedDescription(name, canonicalName, description) &&
        canonicalName in canonicalNames.names &&
        task.canonicalName == Suffixed(canonicalName, tried, trim) &&
        task.name == Suffixed(name, tried, trim)
      decreases |TakenFrom(canonicalNames.names, tried)| + (if tried == 0 then 1 else 0)
    {
      if tried > 0 {
        TakenShrinks(canonicalNames.names, canonicalName, tried, trim);
      } else {
        TakenMonotone(canonicalNames.names, 0);
      }

      task.description := RenamedDescription(name, canonicalName, description);

      var appendLen := |NatToString(counter)| + 2;
      trim := |task.name| >= MaxNameLength - appendLen;
      if |task.name| >= MaxNameLength - appendLen {
        task.name := Suffixed(name, counter, true);
        task.canonicalName := Suffixed(canonicalName, counter, true);
      } else {
        task.name := Suffixed(name, counter, false);
        task.canonicalName := Suffixed(canonicalName, counter, false);
      }

      tried := counter;
      counter := counter + 1;
    }

    if tried > 0 {
      SuffixedNumber(canonicalName, tried, trim);
    }
    canonicalNames.names := canonicalNames.names + {task.canonicalName};
  }

  // ---------------------------------------------------------------------
  // Chunks
  // ---------------------------------------------------------------------

  /** The slices `s[pos:pos + size]` for `pos` in `range(0, len(s), size)`, `size` positive. */
  function Chunks<T>(s: seq<T>, size: nat): (r: seq<seq<T>>)
    requires size > 0
    ensures r == [] <==> s == []
    decreases |s|
  {
    if |s| == 0 then []
    else if |s| <= size then [s]
    else [s[..size]] + Chunks(s[size..], size)
  }

  function Flatten<T>(ss: seq<seq<T>>): seq<T> {
    if ss == [] then [] else ss[0] + Flatten(ss[1..])
  }

  /**
   * `chunker`: `range` refuses a step of zero; a negative step gives no
   * positions at all.
   */
  function Chunker<T>(s: seq<T>, size: int): (r: Result<seq<seq<T>>, PyError>)
    ensures r.Failure? <==> size == 0
    ensures r.Failure? ==> r.error == ValueError
    ensures size < 0 ==> r == Success([])
  {
    if size == 0 then Failure(ValueError)
    else if size < 0 then Success([])
    else Success(Chunks(s, size))
  }

  /** The chunks put back together give the sequence. */
  lemma {:induction false} ChunksFlatten<T>(s: seq<T>, size: nat)
    requires size > 0
    ensures Flatten(Chunks(s, size)) == s
    decreases |s|
  {
    if |s| == 0 {
    } else if |s| <= size {
      assert Flatten([s]) == s + Flatten([s][1..]);
    } else {
      var rest := Chunks(s[size..], size);
      ChunksFlatten(s[size..], size);
      var r := [s[..size]] + rest;
      assert r[1..] == rest;
      assert Flatten(r) == s[..size] + Flatten(rest);
      assert s == s[..size] + s[size..];
    }
  }

  /** Every chunk holds `size` items except the last, which holds the rest, at least one. */
  lemma {:induction false} ChunksSizes<T>(s: seq<T>, size: nat)
    requires size > 0
    ensures forall i :: 0 <= i < |Chunks(s, size)| - 1 ==> |Chunks(s, size)[i]| == size
    ensures forall i :: 0 <= i < |Chunks(s, size)| ==> 0 < |Chunks(s, size)[i]| <= size
    decreases |s|
  {
    if |s| > size {
      var rest := Chunks(s[size..], size);
      ChunksSizes(s[size..], size);
      var r := [s[..size]] + rest;
      assert Chunks(s, size) == r;
      forall i | 0 < i < |r|
        ensures r[i] == rest[i - 1]
      {
      }
    }
  }

  lemma MulLe(a: int, b: int, d: nat)
    requires a <= b
    ensures a * d <= b * d
  {
    assert b * d - a * d == (b - a) * d;
  }

  lemma DivIs(n: int, d: int, q: int)
    requires d > 0 && q * d <= n < q * d + d
    ensures n / d == q
  {
    var p := n / d;
    assert n == p * d + n % d;
    if p < q {
      MulLe(p + 1, q, d);
    } else if p > q {
      MulLe(q + 1, p, d);
    }
  }

  /** There are `ceil(|s| / size)` chunks. */
  lemma {:induction false} ChunksCount<T>(s: seq<T>, size: nat)
    requires size > 0
    ensures |Chunks(s, size)| == (|s| + size - 1) / size
    decreases |s|
  {
    if |s| == 0 {
      DivIs(size - 1, size, 0);
    } else if |s| <= size {
      DivIs(|s| + size - 1, size, 1);
    } else {
      var k := |Chunks(s[size..], size)|;
      ChunksCount(s[size..], size);
      var n := |s[size..]| + size - 1;
      assert n / size == k;
      assert k * size <= n < k * size + size by {
        assert n == size * (n / size) + n % size;
      }
      DivIs(|s| + size - 1, size, k + 1);
    }
  }

  // ---------------------------------------------------------------------
  // Colours
  // ---------------------------------------------------------------------

  /** The colour without its leading `#`, if it has one. */
  function ColorBody(color: string): (body: string)
    requires color != ""
    ensures color[0] == '#' ==> "#" + body == color
    ensures color[0] != '#' ==> body == color
  {
    if color[0] == '#' then color[1..] else color
  }

  /**
   * `format_color` as written: a six-digit colour gets the alpha `00`; any
   * other length falls off the end of the function, which returns `None`.
   * An empty string has no `color[0]`.
   */
  function FormatColor(color: string): (r: Result<Option<string>, PyError>)
    ensures r.Failure? <==> color == ""
    ensures r.Failure? ==> r.error == IndexError
    ensures r.Success? ==> (r.value.Some? <==> |ColorBody(color)| == 6)
    ensures r.Success? && r.value.Some? ==>
      |r.value.value| == 8 && r.value.value[..6] == ColorBody(color) && r.value.value[6..] == "00"
  {
    if color == [] then Failure(IndexError)
    else
      var body := ColorBody(color);
      if |body| == 6 then Success(Some(body + "00")) else Success(None)
  }

  /** A colour in the current eight-digit format is lost: the function returns `None`. */
  lemma FormatColorDropsAlpha()
    ensures FormatColor("ff0000ff") == Success(None)
    ensures FormatColor("#ff0000ff") == Success(None)
    ensures FormatColor("#ff0000") == Success(Some("ff000000"))
  {
    assert ColorBody("#ff0000") == "ff0000";
    assert "ff0000" + "00" == "ff000000";
  }

  /** `format_color` as intended: eight-digit colours are kept as they are. */
  function FormatColorKeepingAlpha(color: string): (r: Result<string, PyError>)
    ensures r.Failure? <==> color == ""
    ensures r.Failure? ==> r.error == IndexError
    ensures r.Success? && |ColorBody(color)| == 6 ==> FormatColor(color) == Success(Some(r.value))
  {
    if color == [] then Failure(IndexError)
    else
      var body := ColorBody(color);
      if |body| == 6 then Success(body + "00") else Success(body)
  }

  /**
   * Both colour formats become an eight-digit RGBA value that fits the
   * colour column and keeps the colour's digits; a present alpha is kept.
   */
  lemma FormatColorKeepingAlphaFits(color: string)
    requires color != "" && (|ColorBody(color)| == 6 || |ColorBody(color)| == 8)
    ensures var v := FormatColorKeepingAlpha(color).value;
      |v| == 8 && v[..|ColorBody(color)|] == ColorBody(color)
    ensures |ColorBody(color)| == 8 ==> FormatColorKeepingAlpha(color) == Success(ColorBody(color))
  {
  }
}

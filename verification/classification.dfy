/** The classification pass of `run`: every registry row becomes an output
    row that is `valid` (first row with its canonical key), `duplicate`
    (names a key an earlier valid row holds) or `invalid` (rejected), and
    the summary counts them. Reading the CSV and writing the four output
    files are not part of this model. */
module Classification {
  import opened Strings
  import opened Results
  import opened Urls
  import opened Dispatch

  /** One registry row. A column missing from the file, or empty in it,
      reads as `""`. */
  datatype RawRow = RawRow(
    sourceType: string,
    locator: string,
    section: string,
    evidenceLevel: string,
    priority: string,
    notes: string
  )

  /** The `status` column; `Pending` is the blank a fresh row starts with. */
  datatype Status = Pending | Valid | Duplicate | Invalid

  function StatusName(s: Status): string
  {
    match s
    case Pending => ""
    case Valid => "valid"
    case Duplicate => "duplicate"
    case Invalid => "invalid"
  }

  /** One row of `normalized.csv`, in OUTPUT_COLUMNS order. The row
      numbers in `source_row` and `duplicate_of` are kept as numbers here;
      `Cells` writes them out as text. */
  datatype OutputRow = OutputRow(
    sourceRow: nat,
    sourceType: string,
    locatorRaw: string,
    locatorNormalized: string,
    section: string,
    evidenceLevel: string,
    priority: string,
    notes: string,
    canonicalKey: string,
    fileKey: string,
    nodeId: string,
    pageId: string,
    path: string,
    line: string,
    status: Status,
    invalidReason: string,
    duplicateOf: RowRef
  )

  /** A reference to a row by its number, or the empty cell. */
  datatype RowRef = NoRow | RowNumber(number: nat)

  /** Text with no surrounding white space. */
  predicate Trimmed(s: string)
  {
    Strip(s) == s
  }

  /** `empty_output_row`: the row number, the raw columns stripped (type,
      evidence level and priority also lower-cased), everything else
      blank. */
  function EmptyOutputRow(n: nat, row: RawRow): (r: OutputRow)
    ensures r.sourceRow == n
    ensures r.status == Pending
    ensures r.locatorNormalized == "" && r.canonicalKey == "" && r.invalidReason == "" && r.duplicateOf.NoRow?
    ensures r.fileKey == "" && r.nodeId == "" && r.pageId == "" && r.path == "" && r.line == ""
  {
    OutputRow(
      sourceRow := n,
      sourceType := Lower(Strip(row.sourceType)),
      locatorRaw := Strip(row.locator),
      locatorNormalized := "",
      section := Strip(row.section),
      evidenceLevel := Lower(Strip(row.evidenceLevel)),
      priority := Lower(Strip(row.priority)),
      notes := Strip(row.notes),
      canonicalKey := "", fileKey := "", nodeId := "", pageId := "", path := "", line := "",
      status := Pending, invalidReason := "", duplicateOf := NoRow)
  }

  /** The columns `empty_output_row` copies are stripped, and the type,
      evidence level and priority are lower-case. */
  lemma EmptyOutputRowTrimmed(n: nat, row: RawRow)
    ensures var r := EmptyOutputRow(n, row);
      && Trimmed(r.sourceType) && Trimmed(r.locatorRaw) && Trimmed(r.section)
      && Trimmed(r.evidenceLevel) && Trimmed(r.priority) && Trimmed(r.notes)
      && IsLower(r.sourceType) && IsLower(r.evidenceLevel) && IsLower(r.priority)
  {
    StripIdempotent(row.locator);
    StripIdempotent(row.section);
    StripIdempotent(row.notes);
    LowerStripTrimmed(row.sourceType);
    LowerStripTrimmed(row.evidenceLevel);
    LowerStripTrimmed(row.priority);
  }

  lemma LowerStripTrimmed(s: string)
    ensures Trimmed(Lower(Strip(s)))
  {
    StripLower(Strip(s));
    StripIdempotent(s);
  }

  /** Feeding an output row's own columns back in reproduces it: stripping
      and lower-casing a second time changes nothing. */
  lemma EmptyOutputRowStable(n: nat, row: RawRow)
    ensures var r := EmptyOutputRow(n, row);
      EmptyOutputRow(n, RawRow(r.sourceType, r.locatorRaw, r.section, r.evidenceLevel, r.priority, r.notes)) == r
  {
    var r := EmptyOutputRow(n, row);
    EmptyOutputRowTrimmed(n, row);
    LowerOfTrimmedLower(r.sourceType);
    LowerOfTrimmedLower(r.evidenceLevel);
    LowerOfTrimmedLower(r.priority);
  }

  lemma LowerOfTrimmedLower(s: string)
    requires Trimmed(s) && IsLower(s)
    ensures Lower(Strip(s)) == s
  {
    LowerOfLower(s);
  }

  /** The text of one output row, cell by cell in OUTPUT_COLUMNS order, as
      `csv.DictWriter` receives it: row numbers written with `str`, a
      missing `duplicate_of` as an empty cell. */
  function Cells(o: OutputRow): (r: seq<string>)
    ensures |r| == 17
    ensures AllDigits(r[0]) && DigitsValue(r[0]) == o.sourceRow
    ensures r[14] == StatusName(o.status)
    ensures r[16] == "" <==> o.duplicateOf.NoRow?
    ensures o.duplicateOf.RowNumber? ==> AllDigits(r[16]) && DigitsValue(r[16]) == o.duplicateOf.number
  {
    NatToStringRoundTrip(o.sourceRow);
    if o.duplicateOf.RowNumber? then
      NatToStringRoundTrip(o.duplicateOf.number);
      CellsOf(o, NatToString(o.duplicateOf.number))
    else
      CellsOf(o, "")
  }

  function CellsOf(o: OutputRow, duplicateOf: string): seq<string>
  {
    [NatToString(o.sourceRow), o.sourceType, o.locatorRaw, o.locatorNormalized, o.section,
     o.evidenceLevel, o.priority, o.notes, o.canonicalKey, o.fileKey, o.nodeId, o.pageId,
     o.path, o.line, StatusName(o.status), o.invalidReason, duplicateOf]
  }

  /** The columns of a row that a normalizer fills in. */
  function FieldsOf(o: OutputRow): Fields
  {
    Fields(o.locatorNormalized, o.canonicalKey, o.fileKey, o.nodeId, o.pageId, o.path, o.line)
  }

  /** `out.update(normalized)`: a column the normalizer does not produce
      keeps the blank it already holds. The normalizer's columns read back
      as its fields; every other column is left as it was. */
  function Merge(out: OutputRow, f: Fields): (r: OutputRow)
    ensures FieldsOf(r) == f
    ensures r.sourceRow == out.sourceRow && r.sourceType == out.sourceType
    ensures r.locatorRaw == out.locatorRaw && r.section == out.section
    ensures r.evidenceLevel == out.evidenceLevel && r.priority == out.priority && r.notes == out.notes
    ensures r.status == out.status && r.invalidReason == out.invalidReason && r.duplicateOf == out.duplicateOf
  {
    out.(locatorNormalized := f.normalized, canonicalKey := f.key, fileKey := f.fileKey,
         nodeId := f.nodeId, pageId := f.pageId, path := f.path, line := f.line)
  }

  /** Updating a row with its own columns changes nothing, and a second
      update overrides the first. */
  lemma MergeLaws(out: OutputRow, f: Fields, g: Fields)
    ensures Merge(out, FieldsOf(out)) == out
    ensures Merge(Merge(out, f), g) == Merge(out, g)
  {
  }

  /** What the loop makes of one row before looking at earlier keys: the
      unsupported-type rejection, which quotes the cleaned type, or
      `normalize_row` on the cleaned type and locator. A rejection always
      says something and an accepted row's key is never blank. */
  function Attempt(env: Env, row: RawRow): (r: Outcome)
    ensures Lower(Strip(row.sourceType)) !in SupportedTypes ==>
      r == Err("unsupported source_type: " + Lower(Strip(row.sourceType)))
    ensures Lower(Strip(row.sourceType)) in SupportedTypes ==>
      r == NormalizeRow(env, Lower(Strip(row.sourceType)), Strip(row.locator))
    ensures r.Err? ==> r.reason != ""
    ensures r.Ok? ==> r.fields.key != ""
  {
    var t := Lower(Strip(row.sourceType));
    if t !in SupportedTypes then Err("unsupported source_type: " + t)
    else
      var r := NormalizeRow(env, t, Strip(row.locator));
      if r.Ok? then KeyNotBlank(env, t, Strip(row.locator)); r else r
  }

  /** An accepted row's key is never blank: it carries its kind's prefix. */
  lemma KeyNotBlank(env: Env, t: string, locator: string)
    requires NormalizeRow(env, t, locator).Ok?
    ensures NormalizeRow(env, t, locator).fields.key != ""
  {
    var k := ParseSourceType(Strip(Lower(t)));
    assert k.Some?;
    assert |KeyPrefix(k.value)| <= |NormalizeRow(env, t, locator).fields.key|;
  }

  /** The outcome of every row, in order. */
  function Outcomes(env: Env, rows: seq<RawRow>): (r: seq<Outcome>)
    ensures |r| == |rows|
    ensures forall j :: 0 <= j < |rows| ==> r[j] == Attempt(env, rows[j])
  {
    seq(|rows|, j requires 0 <= j < |rows| => Attempt(env, rows[j]))
  }

  /** The canonical key of an accepted row. */
  function KeyOf(o: Outcome): Option<string>
  {
    match o
    case Ok(f) => Some(f.key)
    case Err(_) => None
  }

  /** The keys of all rows, in order. */
  function Keys(outs: seq<Outcome>): (r: seq<Option<string>>)
    ensures |r| == |outs|
    ensures forall j :: 0 <= j < |outs| ==> r[j] == KeyOf(outs[j])
  {
    seq(|outs|, j requires 0 <= j < |outs| => KeyOf(outs[j]))
  }

  /** Where a search found its key, if it did. */
  datatype Found = NotFound | FoundAt(index: nat)

  /** The first of the entries before `limit` that holds `key`. */
  function FirstIndex(keys: seq<Option<string>>, key: string, limit: nat): (r: Found)
    requires limit <= |keys|
    ensures r.NotFound? <==> forall j :: 0 <= j < limit ==> keys[j] != Some(key)
    ensures r.FoundAt? ==> r.index < limit && keys[r.index] == Some(key)
    ensures r.FoundAt? ==> forall j :: 0 <= j < r.index ==> keys[j] != Some(key)
  {
    if limit == 0 then NotFound
    else
      match FirstIndex(keys, key, limit - 1)
      case FoundAt(i) => FoundAt(i)
      case NotFound => if keys[limit - 1] == Some(key) then FoundAt(limit - 1) else NotFound
  }

  /** `FirstIndex` looks at nothing at or past `limit`. */
  lemma {:induction false} FirstIndexPrefix(a: seq<Option<string>>, b: seq<Option<string>>, key: string, limit: nat)
    requires limit <= |a| && limit <= |b| && a[..limit] == b[..limit]
    ensures FirstIndex(a, key, limit) == FirstIndex(b, key, limit)
  {
    if limit > 0 {
      assert a[..limit - 1] == b[..limit - 1] by {
        assert a[..limit - 1] == a[..limit][..limit - 1];
        assert b[..limit - 1] == b[..limit][..limit - 1];
      }
      FirstIndexPrefix(a, b, key, limit - 1);
      assert a[limit - 1] == a[..limit][limit - 1];
      assert b[limit - 1] == b[..limit][limit - 1];
    }
  }

  /** The earlier row, if any, that already holds the key of row `j`. */
  function Hit(outs: seq<Outcome>, j: nat): (r: Found)
    requires j < |outs|
    ensures r.FoundAt? ==> outs[j].Ok? && r.index < j
  {
    match outs[j]
    case Err(_) => NotFound
    case Ok(f) => FirstIndex(Keys(outs), f.key, j)
  }

  /** A fresh output row classified by its outcome and by the earlier row
      holding its key. */
  function Classified(out: OutputRow, o: Outcome, hit: Found): OutputRow
  {
    match o
    case Err(reason) => out.(status := Invalid, invalidReason := reason)
    case Ok(f) =>
      match hit
      case FoundAt(i) => Merge(out, f).(status := Duplicate, duplicateOf := RowNumber(i + 1))
      case NotFound => Merge(out, f).(status := Valid)
  }

  /** The reference classification of row `j` (numbered `j + 1`), given
      every row's outcome: invalid with its reason when rejected, else a
      duplicate of the first earlier row with the same key, else valid.
      An invalid row carries no key; any other carries its normalizer's
      fields. */
  function Expected(rows: seq<RawRow>, outs: seq<Outcome>, j: nat): (r: OutputRow)
    requires |outs| == |rows| && j < |rows|
    ensures r.sourceRow == j + 1
    ensures r.status != Pending
    ensures r.status == Invalid <==> outs[j].Err?
    ensures r.status == Invalid ==> r.invalidReason == outs[j].reason && r.canonicalKey == ""
    ensures r.status != Invalid ==> r.invalidReason == "" && r.canonicalKey == outs[j].fields.key
    ensures r.duplicateOf.RowNumber? <==> r.status == Duplicate
  {
    Classified(EmptyOutputRow(j + 1, rows[j]), outs[j], Hit(outs, j))
  }

  /** A row is valid exactly when it is accepted and no earlier row was
      accepted with the same key. */
  lemma ValidIsFirstOfItsKey(rows: seq<RawRow>, outs: seq<Outcome>, j: nat)
    requires |outs| == |rows| && j < |rows|
    ensures Expected(rows, outs, j).status == Valid <==>
      outs[j].Ok? && forall i :: 0 <= i < j ==> KeyOf(outs[i]) != Some(outs[j].fields.key)
  {
    var keys := Keys(outs);
    if outs[j].Ok? {
      var k := outs[j].fields.key;
      if FirstIndex(keys, k, j).FoundAt? {
        var i := FirstIndex(keys, k, j).index;
        assert KeyOf(outs[i]) == Some(k);
      } else {
        forall i | 0 <= i < j
          ensures KeyOf(outs[i]) != Some(k)
        {
          assert keys[i] == KeyOf(outs[i]);
        }
      }
    }
  }

  /** No two valid rows share a canonical key. */
  lemma ValidKeysDistinct(rows: seq<RawRow>, outs: seq<Outcome>, a: nat, b: nat)
    requires |outs| == |rows| && a < |rows| && b < |rows| && a != b
    requires Expected(rows, outs, a).status == Valid && Expected(rows, outs, b).status == Valid
    ensures Expected(rows, outs, a).canonicalKey != Expected(rows, outs, b).canonicalKey
  {
    ValidIsFirstOfItsKey(rows, outs, a);
    ValidIsFirstOfItsKey(rows, outs, b);
    if a < b {
      assert KeyOf(outs[a]) == Some(outs[a].fields.key);
    } else {
      assert KeyOf(outs[b]) == Some(outs[b].fields.key);
    }
  }

  /** A duplicate names an earlier row, and that row is the valid one
      holding the same key. */
  lemma DuplicateRefersToValid(rows: seq<RawRow>, outs: seq<Outcome>, j: nat)
    requires |outs| == |rows| && j < |rows|
    requires Expected(rows, outs, j).status == Duplicate
    ensures var d := Expected(rows, outs, j).duplicateOf.number;
      && 1 <= d <= j
      && Expected(rows, outs, d - 1).status == Valid
      && Expected(rows, outs, d - 1).canonicalKey == Expected(rows, outs, j).canonicalKey
  {
    var keys := Keys(outs);
    var k := outs[j].fields.key;
    var i := FirstIndex(keys, k, j).index;
    assert Expected(rows, outs, j).duplicateOf == RowNumber(i + 1);
    assert keys[i] == KeyOf(outs[i]);
    ValidIsFirstOfItsKey(rows, outs, i);
    forall h | 0 <= h < i
      ensures KeyOf(outs[h]) != Some(k)
    {
      assert keys[h] == KeyOf(outs[h]);
    }
  }

  /** Rows are classified as they are read: a row's result does not depend
      on any row after it. */
  lemma DecidedByEarlierRows(rows: seq<RawRow>, outs: seq<Outcome>, n: nat, j: nat)
    requires |outs| == |rows| && j < n <= |rows|
    ensures Expected(rows[..n], outs[..n], j) == Expected(rows, outs, j)
  {
    if outs[j].Ok? {
      var a, b := Keys(outs), Keys(outs[..n]);
      assert a[..j] == b[..j];
      FirstIndexPrefix(a, b, outs[j].fields.key, j);
    }
  }

  /** Row `i`'s outcome depends only on that row. */
  lemma OutcomesPrefix(env: Env, rows: seq<RawRow>, n: nat)
    requires n <= |rows|
    ensures Outcomes(env, rows[..n]) == Outcomes(env, rows)[..n]
  {
  }

  /** Every invalid row says why, and every other row has a key. */
  lemma RowsExplainThemselves(env: Env, rows: seq<RawRow>, j: nat)
    requires j < |rows|
    ensures var r := Expected(rows, Outcomes(env, rows), j);
      && (r.status == Invalid ==> r.invalidReason != "" && r.canonicalKey == "")
      && (r.status != Invalid ==> r.canonicalKey != "" && r.invalidReason == "")
  {
  }

  /** The rows of `s` with status `st`, in order. */
  function Filter(s: seq<OutputRow>, st: Status): (r: seq<OutputRow>)
    ensures |r| <= |s|
    ensures forall k :: 0 <= k < |r| ==> r[k].status == st && r[k] in s
  {
    if |s| == 0 then []
    else
      var rest := Filter(s[..|s| - 1], st);
      assert forall k :: 0 <= k < |rest| ==> rest[k] in s by {
        forall k | 0 <= k < |rest| ensures rest[k] in s {
          var i :| 0 <= i < |s[..|s| - 1]| && s[..|s| - 1][i] == rest[k];
          assert s[i] == rest[k];
        }
      }
      rest + (if s[|s| - 1].status == st then [s[|s| - 1]] else [])
  }

  lemma FilterAppend(s: seq<OutputRow>, x: OutputRow, st: Status)
    ensures Filter(s + [x], st) == Filter(s, st) + (if x.status == st then [x] else [])
  {
    assert (s + [x])[..|s|] == s;
  }

  /** Once no row is pending, the valid, duplicate and invalid rows account
      for every row exactly once. */
  lemma {:induction false} FilterCounts(s: seq<OutputRow>)
    requires forall k :: 0 <= k < |s| ==> s[k].status != Pending
    ensures |Filter(s, Valid)| + |Filter(s, Duplicate)| + |Filter(s, Invalid)| == |s|
  {
    if |s| > 0 {
      var init := s[..|s| - 1];
      assert forall k :: 0 <= k < |init| ==> init[k] == s[k];
      FilterCounts(init);
    }
  }

  /** `seen_keys`: the keys of the entries before `i`, each mapped to the
      number of the first row that held it. */
  ghost predicate SeenMatches(keys: seq<Option<string>>, seen: map<string, nat>, i: nat)
    requires i <= |keys|
  {
    && (forall k :: k in seen <==> FirstIndex(keys, k, i).FoundAt?)
    && (forall k :: k in seen ==> seen[k] == FirstIndex(keys, k, i).index + 1)
  }

  /** `seen_keys` after row `i`: its key is recorded unless already
      present. A recorded row number is never overwritten; a new key maps
      to the number of row `i`; nothing else is added. */
  function Record(seen: map<string, nat>, key: Option<string>, i: nat): (r: map<string, nat>)
    ensures forall k :: k in seen ==> k in r && r[k] == seen[k]
    ensures forall k :: k in r <==> k in seen || key == Some(k)
    ensures key.Some? && key.value !in seen ==> r[key.value] == i + 1
  {
    match key
    case Some(k) => if k in seen then seen else seen[k := i + 1]
    case None => seen
  }

  lemma SeenStep(keys: seq<Option<string>>, seen: map<string, nat>, i: nat, next: nat)
    requires i < |keys| && next == i + 1 && SeenMatches(keys, seen, i)
    ensures SeenMatches(keys, Record(seen, keys[i], i), next)
  {
    var seen' := Record(seen, keys[i], i);
    forall k
      ensures k in seen' <==> FirstIndex(keys, k, next).FoundAt?
      ensures k in seen' ==> seen'[k] == FirstIndex(keys, k, next).index + 1
    {
      assert FirstIndex(keys, k, next) ==
        if FirstIndex(keys, k, i).FoundAt? then FirstIndex(keys, k, i)
        else if keys[i] == Some(k) then FoundAt(i) else NotFound;
    }
  }

  /** The two checks the loop makes on a fresh output row's type and
      locator columns agree with `Attempt` on the raw row. */
  lemma AttemptOnColumns(env: Env, n: nat, row: RawRow)
    ensures var out := EmptyOutputRow(n, row);
      && (out.sourceType !in SupportedTypes ==>
            Attempt(env, row) == Err("unsupported source_type: " + out.sourceType))
      && (out.sourceType in SupportedTypes ==>
            Attempt(env, row) == NormalizeRow(env, out.sourceType, out.locatorRaw))
  {
  }

  /** Row `i` classified against the keys recorded so far, as the loop
      does it. */
  function BySeen(out: OutputRow, o: Outcome, seen: map<string, nat>): OutputRow
  {
    match o
    case Err(reason) => out.(status := Invalid, invalidReason := reason)
    case Ok(f) =>
      if f.key in seen then Merge(out, f).(status := Duplicate, duplicateOf := RowNumber(seen[f.key]))
      else Merge(out, f).(status := Valid)
  }

  /** Looking a key up in `seen_keys` finds what a search of the earlier
      rows finds. */
  lemma SeenHit(outs: seq<Outcome>, seen: map<string, nat>, i: nat)
    requires i < |outs|
    requires SeenMatches(Keys(outs), seen, i)
    ensures outs[i].Ok? && outs[i].fields.key in seen ==>
      seen[outs[i].fields.key] >= 1 && Hit(outs, i) == FoundAt(seen[outs[i].fields.key] - 1)
    ensures outs[i].Ok? && outs[i].fields.key !in seen ==> Hit(outs, i) == NotFound
  {
    if outs[i].Ok? {
      assert Hit(outs, i) == FirstIndex(Keys(outs), outs[i].fields.key, i);
    }
  }

  lemma ExpectedIsClassified(rows: seq<RawRow>, outs: seq<Outcome>, i: nat)
    requires |outs| == |rows| && i < |rows|
    ensures Expected(rows, outs, i) == Classified(EmptyOutputRow(i + 1, rows[i]), outs[i], Hit(outs, i))
  {
  }

  lemma ClassifiedBySeen(out: OutputRow, o: Outcome, seen: map<string, nat>, hit: Found)
    requires o.Ok? && o.fields.key in seen ==> seen[o.fields.key] >= 1 && hit == FoundAt(seen[o.fields.key] - 1)
    requires o.Ok? && o.fields.key !in seen ==> hit == NotFound
    ensures Classified(out, o, hit) == BySeen(out, o, seen)
  {
  }

  /** Row `i` classified against `seen_keys` is row `i` classified against
      the earlier rows. */
  lemma ExpectedBySeen(rows: seq<RawRow>, outs: seq<Outcome>, seen: map<string, nat>, i: nat)
    requires |outs| == |rows| && i < |rows|
    requires SeenMatches(Keys(outs), seen, i)
    ensures Expected(rows, outs, i) == BySeen(EmptyOutputRow(i + 1, rows[i]), outs[i], seen)
  {
    ExpectedIsClassified(rows, outs, i);
    SeenClassifies(EmptyOutputRow(i + 1, rows[i]), outs, seen, i);
  }

  lemma SeenClassifies(out: OutputRow, outs: seq<Outcome>, seen: map<string, nat>, i: nat)
    requires i < |outs|
    requires SeenMatches(Keys(outs), seen, i)
    ensures Classified(out, outs[i], Hit(outs, i)) == BySeen(out, outs[i], seen)
  {
    SeenHit(outs, seen, i);
    ClassifiedBySeen(out, outs[i], seen, Hit(outs, i));
  }

  /** A rejected row, or one whose key is already recorded, leaves
      `seen_keys` as it is. */
  lemma RecordKept(seen: map<string, nat>, o: Outcome, i: nat)
    requires o.Ok? ==> o.fields.key in seen
    ensures Record(seen, KeyOf(o), i) == seen
  {
  }

  /** The first row with a key records its number under it. */
  lemma RecordAdded(seen: map<string, nat>, o: Outcome, i: nat)
    requires o.Ok? && o.fields.key !in seen
    ensures Record(seen, KeyOf(o), i) == seen[o.fields.key := i + 1]
  {
  }

  /** The body of the loop for row `i`: build the output row against the
      keys recorded so far and record a new key. With `seen_keys` holding
      exactly the first rows of the keys before row `i`, the row comes out
      as the whole-registry classification says, and `seen_keys` then
      covers row `i` too. */
  method ClassifyRow(env: Env, rows: seq<RawRow>, seen: map<string, nat>, i: nat)
    returns (out: OutputRow, seen': map<string, nat>)
    requires i < |rows| && SeenMatches(Keys(Outcomes(env, rows)), seen, i)
    ensures out == Expected(rows, Outcomes(env, rows), i)
    ensures SeenMatches(Keys(Outcomes(env, rows)), seen', i + 1)
  {
    out, seen' := ClassifyStep(env, rows[i], seen, i);
    var next := i + 1;
    LoopStep(env, rows, seen, i, next, out, seen');
  }

  /** The loop body on its own row: the row against `seen_keys`, and the
      key recorded if new. */
  method ClassifyStep(env: Env, row: RawRow, seen: map<string, nat>, i: nat)
    returns (out: OutputRow, seen': map<string, nat>)
    ensures out == BySeen(EmptyOutputRow(i + 1, row), Attempt(env, row), seen)
    ensures seen' == Record(seen, KeyOf(Attempt(env, row)), i)
  {
    out := EmptyOutputRow(i + 1, row);
    AttemptOnColumns(env, i + 1, row);
    seen' := seen;
    var sourceType := out.sourceType;
    if sourceType !in SupportedTypes {
      out := out.(status := Invalid, invalidReason := "unsupported source_type: " + sourceType);
      RecordKept(seen, Attempt(env, row), i);
      return;
    }
    var outcome := NormalizeRow(env, sourceType, out.locatorRaw);
    if outcome.Err? {
      out := out.(status := Invalid, invalidReason := outcome.reason);
      RecordKept(seen, Attempt(env, row), i);
      return;
    }
    out := Merge(out, outcome.fields);
    var key := out.canonicalKey;
    if key in seen {
      out := out.(status := Duplicate, duplicateOf := RowNumber(seen[key]));
      RecordKept(seen, Attempt(env, row), i);
      return;
    }
    out := out.(status := Valid);
    seen' := seen[key := out.sourceRow];
    RecordAdded(seen, Attempt(env, row), i);
  }

  /** The expected results of the first `n` rows, in order. */
  function ExpectedRows(rows: seq<RawRow>, outs: seq<Outcome>, n: nat): (r: seq<OutputRow>)
    requires |outs| == |rows| && n <= |rows|
    ensures |r| == n
  {
    seq(n, j requires 0 <= j < n => Expected(rows, outs, j))
  }

  /** The results of one more row are the earlier ones followed by that
      row's. */
  lemma ExpectedRowsNext(rows: seq<RawRow>, outs: seq<Outcome>, i: nat, n: nat,
                         done: seq<OutputRow>, out: OutputRow)
    requires |outs| == |rows| && n == i + 1 <= |rows|
    requires done == ExpectedRows(rows, outs, i) && out == Expected(rows, outs, i)
    ensures done + [out] == ExpectedRows(rows, outs, n)
  {
    var a, b := ExpectedRows(rows, outs, n), done + [out];
    forall k | 0 <= k < n
      ensures a[k] == b[k]
    {
      if k < i {
        assert a[k] == Expected(rows, outs, k);
      } else {
        assert k == i;
      }
    }
  }

  /** One turn of the loop: what `ClassifyRow` returns for row `i` is
      that row's expected result, and `seen_keys` then covers row `i`
      too. */
  lemma LoopStep(env: Env, rows: seq<RawRow>, seen: map<string, nat>, i: nat, next: nat,
                 out: OutputRow, seen': map<string, nat>)
    requires i < |rows| && next == i + 1 && SeenMatches(Keys(Outcomes(env, rows)), seen, i)
    requires out == BySeen(EmptyOutputRow(i + 1, rows[i]), Attempt(env, rows[i]), seen)
    requires seen' == Record(seen, KeyOf(Attempt(env, rows[i])), i)
    ensures out == Expected(rows, Outcomes(env, rows), i)
    ensures SeenMatches(Keys(Outcomes(env, rows)), seen', next)
  {
    var outs := Outcomes(env, rows);
    var keys := Keys(outs);
    assert outs[i] == Attempt(env, rows[i]);
    ExpectedBySeen(rows, outs, seen, i);
    assert keys[i] == KeyOf(outs[i]);
    SeenStep(keys, seen, i, next);
  }

  /** The classification loop of `run`: every row in order, with the
      duplicates and the invalid rows each also collected apart. */
  method Classify(env: Env, rows: seq<RawRow>)
    returns (normalized: seq<OutputRow>, duplicates: seq<OutputRow>, invalid: seq<OutputRow>)
    ensures |normalized| == |rows|
    ensures forall j :: 0 <= j < |rows| ==> normalized[j] == Expected(rows, Outcomes(env, rows), j)
    ensures duplicates == Filter(normalized, Duplicate)
    ensures invalid == Filter(normalized, Invalid)
  {
    ghost var outs := Outcomes(env, rows);
    var seen: map<string, nat> := map[];
    normalized, duplicates, invalid := [], [], [];
    var i := 0;
    while i < |rows|
      invariant 0 <= i <= |rows|
      invariant |normalized| == i
      invariant normalized == ExpectedRows(rows, outs, i)
      invariant duplicates == Filter(normalized, Duplicate)
      invariant invalid == Filter(normalized, Invalid)
      invariant SeenMatches(Keys(outs), seen, i)
    {
      var out, seen' := ClassifyRow(env, rows, seen, i);
      var next := i + 1;
      FilterAppend(normalized, out, Duplicate);
      FilterAppend(normalized, out, Invalid);
      duplicates := duplicates + (if out.status == Duplicate then [out] else []);
      invalid := invalid + (if out.status == Invalid then [out] else []);
      ExpectedRowsNext(rows, outs, i, next, normalized, out);
      normalized := normalized + [out];
      seen := seen';
      i := next;
    }
  }

  /** `sorted(SUPPORTED_SOURCE_TYPES)`. */
  const SortedSupportedTypes: seq<string> := ["api", "code", "doc", "figma", "notion", "other"]

  /** The listed types are the supported ones, each once, in ascending
      order. */
  lemma SortedSupportedTypesSorted()
    ensures forall i, j :: 0 <= i < j < |SortedSupportedTypes| ==>
      StrLe(SortedSupportedTypes[i], SortedSupportedTypes[j]) && SortedSupportedTypes[i] != SortedSupportedTypes[j]
    ensures forall t :: t in SortedSupportedTypes <==> t in SupportedTypes
  {
  }

  /** `summary.json` without `output_dir`. */
  datatype Summary = Summary(
    inputRows: nat,
    validRows: nat,
    duplicateRows: nat,
    invalidRows: nat,
    supportedSourceTypes: seq<string>
  )

  /** `run` without the file I/O: classify every row and count the
      outcome. The counts add up to the number of rows read. */
  method Run(env: Env, rows: seq<RawRow>)
    returns (normalized: seq<OutputRow>, duplicates: seq<OutputRow>, invalid: seq<OutputRow>, summary: Summary)
    ensures |normalized| == |rows|
    ensures forall j :: 0 <= j < |rows| ==> normalized[j] == Expected(rows, Outcomes(env, rows), j)
    ensures duplicates == Filter(normalized, Duplicate)
    ensures invalid == Filter(normalized, Invalid)
    ensures summary.inputRows == |rows|
    ensures summary.validRows == |Filter(normalized, Valid)|
    ensures summary.duplicateRows == |duplicates| && summary.invalidRows == |invalid|
    ensures summary.validRows + summary.duplicateRows + summary.invalidRows == summary.inputRows
    ensures summary.supportedSourceTypes == SortedSupportedTypes
  {
    normalized, duplicates, invalid := Classify(env, rows);
    FilterCounts(normalized);
    summary := Summary(|rows|, |Filter(normalized, Valid)|, |duplicates|, |invalid|, SortedSupportedTypes);
  }
}

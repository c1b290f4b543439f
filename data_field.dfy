/**
 * The legacy record codec and merge that preceded the sakdb layer.  A record
 * carries a type name beside its fields; it is written as a `{"t": type_name}`
 * line followed by one `header || payload` line per field, with `json.dumps`'s
 * default separators, joined by newlines and with no trailing newline.  The
 * field itself, its constructor and the key lookup are the ones of the sakdb
 * layer, which the legacy code duplicates line for line.
 */
module DataField {
  import opened Wrappers
  import Text
  import Json
  import SakDbFields

  type Field = SakDbFields.Field

  /** PAYLOAD_SEPARATOR. */
  const LegacySeparator: string := " || "

  /** DataObjectFields: a type name and the fields. */
  datatype Record = Record(typeName: string, fields: seq<Field>)

  // ------------------------------------------------------ data_object_dumps

  function TypeMembers(name: string): seq<Json.Member> {
    [("t", Json.JStr(name))]
  }

  /** `json.dumps({"t": type_name})`. */
  function TypeLine(name: string): string {
    Json.ObjectText(TypeMembers(name), ", ", ": ")
  }

  /** `json.dumps({"t": ts, "k": key, "c": crc})`. */
  function HeaderText(f: Field): string {
    Json.ObjectText(SakDbFields.HeaderMembers(f), ", ", ": ")
  }

  function LineText(f: Field): string {
    HeaderText(f) + LegacySeparator + Json.Quote(f.payload)
  }

  /** The field lines, one per field, in field order. */
  function FieldLines(fields: seq<Field>): (r: seq<string>)
    ensures |r| == |fields|
  {
    if fields == [] then [] else [LineText(fields[0])] + FieldLines(fields[1..])
  }

  /** `data_object_dumps`, as written: nothing stops a header from holding the separator. */
  function Dumps(r: Record): string {
    Text.Join([TypeLine(r.typeName)] + FieldLines(r.fields), "\n")
  }

  /** No field header contains the separator. */
  predicate HeadersClear(fields: seq<Field>) {
    forall i :: 0 <= i < |fields| ==> !Text.Contains(HeaderText(fields[i]), LegacySeparator)
  }

  /** `data_object_dumps` with the check the sakdb layer makes: it fails on a header holding the separator. */
  function DumpsChecked(r: Record): (res: Result<string>)
  {
    if HeadersClear(r.fields) then Ok(Dumps(r)) else Fail(HeaderHasSeparator)
  }

  /** A header holds the separator only if its key or its crc holds a '|'. */
  lemma HeaderClearWithoutBar(f: Field)
    requires '|' !in f.key && '|' !in f.crc
    ensures !Text.Contains(HeaderText(f), LegacySeparator)
  {
    var ms := SakDbFields.HeaderMembers(f);
    Json.ObjectTextHas(ms, ", ", ": ", '|');
    assert !Json.MemberHas(ms[0], '|') && !Json.MemberHas(ms[1], '|') && !Json.MemberHas(ms[2], '|');
    Text.NotContainsChar(HeaderText(f), LegacySeparator, 1);
  }

  /** Keys and crcs without a '|' are always written. */
  lemma DumpsCheckedWithoutBar(r: Record)
    requires forall i :: 0 <= i < |r.fields| ==> '|' !in r.fields[i].key && '|' !in r.fields[i].crc
    ensures DumpsChecked(r) == Ok(Dumps(r))
  {
    forall i | 0 <= i < |r.fields| {
      HeaderClearWithoutBar(r.fields[i]);
    }
  }

  lemma TypeLineShape(name: string)
    ensures Text.NoLineBreak(TypeLine(name)) && TypeLine(name) != []
    ensures Text.Strip(TypeLine(name)) == TypeLine(name)
  {
    Json.ObjectTextNoBreak(TypeMembers(name), ", ", ": ");
    var l := TypeLine(name);
    assert l[0] == '{' && l[|l| - 1] == '}';
    Text.StripUnchanged(l);
  }

  /** A field line is its own stripped form, free of line breaks. */
  lemma LineTextShape(f: Field)
    ensures Text.NoLineBreak(LineText(f)) && LineText(f) != []
    ensures Text.Strip(LineText(f)) == LineText(f)
  {
    Json.ObjectTextNoBreak(SakDbFields.HeaderMembers(f), ", ", ": ");
    Json.QuoteNoBreak(f.payload);
    Text.NoBreakConcat(HeaderText(f), LegacySeparator);
    Text.NoBreakConcat(HeaderText(f) + LegacySeparator, Json.Quote(f.payload));
    var l := LineText(f);
    assert l[0] == '{';
    assert l[|l| - 1] == '"';
    Text.StripUnchanged(l);
  }

  /** Every field line is the line of its field: break-free and not blank. */
  predicate LinesOf(lines: seq<string>, fields: seq<Field>)
    requires |lines| == |fields|
  {
    forall i :: 0 <= i < |fields| ==> lines[i] == LineText(fields[i]) && Text.NoLineBreak(lines[i]) && lines[i] != []
  }

  lemma {:induction false} FieldLinesAt(fields: seq<Field>)
    ensures LinesOf(FieldLines(fields), fields)
  {
    if fields != [] {
      var rest := FieldLines(fields[1..]);
      var lines := FieldLines(fields);
      FieldLinesAt(fields[1..]);
      assert lines == [LineText(fields[0])] + rest;
      LineTextShape(fields[0]);
      forall i | 1 <= i < |fields|
        ensures lines[i] == LineText(fields[i]) && Text.NoLineBreak(lines[i]) && lines[i] != []
      {
        assert lines[i] == rest[i - 1] && fields[i] == fields[1..][i - 1];
      }
    }
  }

  /** The text splits into the type line and then one line per field, in field order. */
  lemma DumpsLayout(r: Record)
    ensures var lines := Text.SplitLines(Dumps(r));
            |lines| == |r.fields| + 1 && lines[0] == TypeLine(r.typeName) && LinesOf(lines[1..], r.fields)
  {
    var rest := FieldLines(r.fields);
    var lines := [TypeLine(r.typeName)] + rest;
    FieldLinesAt(r.fields);
    TypeLineShape(r.typeName);
    assert lines[1..] == rest;
    assert forall i :: 0 <= i < |lines| ==> Text.NoLineBreak(lines[i]) by {
      forall i | 0 <= i < |lines| ensures Text.NoLineBreak(lines[i]) {
        if i > 0 { assert lines[i] == rest[i - 1]; }
      }
    }
    assert lines[|lines| - 1] != [] by {
      if |lines| > 1 { assert lines[|lines| - 1] == rest[|rest| - 1]; }
    }
    Text.SplitJoin(lines);
  }

  // ------------------------------------------------------ data_object_loads

  /**
   * The first non-blank line: the type name when it is an object with a "t"
   * entry, None (the loop's `break`) when it is an object without one or a
   * string without "t" in it, a failure for everything `json.loads` or the
   * lookup refuses.
   */
  function TypeHeader(line: string): (r: Result<Option<string>>)
  {
    match Json.LoadsObject(line)
    case Ok(ms) =>
      (match Json.Lookup(ms, "t")
       case None => Ok(None)
       case Some(v) => if v.JStr? then Ok(Some(v.s)) else Fail(BadJson))
    case Fail(_) =>
      match Json.LoadsString(line)
      case Ok(s) => if Text.Contains(s, "t") then Fail(BadJson) else Ok(None)
      case Fail(e) => Fail(e)
  }

  /** The loop of `data_object_loads` while no record has been started. */
  function LoadFrom(lines: seq<string>): (r: Result<Option<Record>>)
    ensures (forall i :: 0 <= i < |lines| ==> Text.Strip(lines[i]) == []) ==> r == Ok(None)
  {
    if lines == [] then Ok(None)
    else
      var line := Text.Strip(lines[0]);
      assert forall i :: 1 <= i < |lines| ==> lines[i] == lines[1..][i - 1];
      if line == [] then LoadFrom(lines[1..])
      else
        match TypeHeader(line)
        case Fail(e) => Fail(e)
        case Ok(None) => Ok(None)
        case Ok(Some(name)) =>
          match SakDbFields.LoadLines(lines[1..], LegacySeparator)
          case Fail(e) => Fail(e)
          case Ok(fs) => Ok(Some(Record(name, fs)))
  }

  /** `data_object_loads`. */
  function Loads(data: string): Result<Option<Record>>
  {
    LoadFrom(Text.SplitLines(data))
  }

  /** The empty text holds no record. */
  lemma LoadsEmpty()
    ensures Loads("") == Ok(None)
  {
  }

  /** Reading stops with no record at a first non-blank line that is an object without a "t" entry. */
  lemma {:induction false} LoadsStopsWithoutType(lines: seq<string>, i: nat, ms: seq<Json.Member>)
    requires i < |lines| && forall j :: 0 <= j < i ==> Text.Strip(lines[j]) == []
    requires Json.LoadsObject(Text.Strip(lines[i])) == Ok(ms) && Json.Lookup(ms, "t").None?
    ensures LoadFrom(lines) == Ok(None)
  {
    if i > 0 {
      assert forall j :: 0 <= j < i - 1 ==> lines[1..][j] == lines[j + 1];
      LoadsStopsWithoutType(lines[1..], i - 1, ms);
    } else {
      assert Text.Strip(lines[0]) != [];
    }
  }

  lemma TypeHeaderOf(name: string)
    ensures TypeHeader(TypeLine(name)) == Ok(Some(name))
  {
    Json.ObjectRoundTrip(TypeMembers(name), ", ", ": ");
  }

  lemma ParseLineOf(f: Field)
    requires !Text.Contains(HeaderText(f), LegacySeparator)
    ensures SakDbFields.ParseFieldLine(LineText(f), LegacySeparator) == Ok(f)
  {
    var header := HeaderText(f);
    var payload := Json.Quote(f.payload);
    assert Text.SplitOnce(LineText(f), LegacySeparator) == Some((header, payload)) by {
      assert header[|header| - 1] == '}';
      Text.SplitOnceAfterClosed(header, LegacySeparator, payload);
    }
    assert Json.LoadsObject(header) == Ok(SakDbFields.HeaderMembers(f)) by {
      Json.ObjectRoundTrip(SakDbFields.HeaderMembers(f), ", ", ": ");
    }
    assert Json.LoadsString(payload) == Ok(f.payload) by {
      Json.LoadsQuote(f.payload);
    }
    SakDbFields.ParseFieldLineStep(LineText(f), LegacySeparator, header, payload, f);
  }

  /** Reading back the field lines gives the fields. */
  lemma {:induction false} LoadFieldLines(fields: seq<Field>)
    requires HeadersClear(fields)
    ensures SakDbFields.LoadLines(FieldLines(fields), LegacySeparator) == Ok(fields)
  {
    if fields != [] {
      var rest := FieldLines(fields[1..]);
      assert HeadersClear(fields[1..]) by {
        assert forall i :: 1 <= i < |fields| ==> fields[i] == fields[1..][i - 1];
      }
      LoadFieldLines(fields[1..]);
      LineTextShape(fields[0]);
      ParseLineOf(fields[0]);
      SakDbFields.LoadLinesStep(LineText(fields[0]), rest, LegacySeparator, fields[0], fields[1..]);
      assert FieldLines(fields) == [LineText(fields[0])] + rest;
      assert [fields[0]] + fields[1..] == fields;
    }
  }

  /** A type line followed by field lines reads as the record they describe. */
  lemma LoadFromTyped(line: string, rest: seq<string>, name: string, fields: seq<Field>)
    requires line != [] && Text.Strip(line) == line && TypeHeader(line) == Ok(Some(name))
    requires SakDbFields.LoadLines(rest, LegacySeparator) == Ok(fields)
    ensures LoadFrom([line] + rest) == Ok(Some(Record(name, fields)))
  {
    assert ([line] + rest)[1..] == rest;
  }

  /** `data_object_loads(data_object_dumps(x))` gives back the type name and the fields in order. */
  lemma RoundTrip(r: Record)
    requires DumpsChecked(r).Ok?
    ensures Loads(DumpsChecked(r).value) == Ok(Some(r))
  {
    var line := TypeLine(r.typeName);
    var rest := FieldLines(r.fields);
    assert Text.SplitLines(Dumps(r)) == [line] + rest by {
      DumpsLayout(r);
      FieldLinesAt(r.fields);
    }
    assert LoadFrom([line] + rest) == Ok(Some(r)) by {
      TypeLineShape(r.typeName);
      TypeHeaderOf(r.typeName);
      LoadFieldLines(r.fields);
      LoadFromTyped(line, rest, r.typeName, r.fields);
    }
  }

  // ------------------------------------------------ a key holding the separator

  /** A header's text up to its key, the key's opening quote included. */
  function KeyOpening(ts: int): string {
    "{" + Json.MemberText(("t", Json.JInt(ts)), ": ") + ", " + Json.Quote("k") + ": " + "\""
  }

  /** A header's text after its key. */
  function KeyClosing(crc: string): string {
    "\"" + ", " + Json.MemberText(("c", Json.JStr(crc)), ": ") + "}"
  }

  /** A key of printable characters stands in its header as it is. */
  lemma HeaderAroundKey(f: Field)
    requires forall i :: 0 <= i < |f.key| ==> Json.IsPrintable(f.key[i])
    ensures HeaderText(f) == KeyOpening(f.ts) + f.key + KeyClosing(f.crc)
  {
    var a: Json.Member := ("t", Json.JInt(f.ts));
    var b: Json.Member := ("k", Json.JStr(f.key));
    var c: Json.Member := ("c", Json.JStr(f.crc));
    var ta := Json.MemberText(a, ": ");
    var tc := Json.MemberText(c, ": ");
    var qk := Json.Quote("k");
    assert Json.MembersText(SakDbFields.HeaderMembers(f), ", ", ": ")
           == ta + ", " + (Json.MemberText(b, ": ") + ", " + tc) by {
      Json.MembersTextThree(a, b, c, ", ", ": ");
    }
    assert Json.MemberText(b, ": ") == qk + ": " + ("\"" + f.key + "\"") by {
      Json.QuotePrintable(f.key);
    }
    assert KeyOpening(f.ts) == "{" + ta + ", " + qk + ": " + "\"";
    assert KeyClosing(f.crc) == "\"" + ", " + tc + "}";
    HeaderAssoc(ta, qk, f.key, tc);
  }

  lemma HeaderAssoc(ta: string, qk: string, key: string, tc: string)
    ensures "{" + (ta + ", " + (qk + ": " + ("\"" + key + "\"") + ", " + tc)) + "}"
            == ("{" + ta + ", " + qk + ": " + "\"") + key + ("\"" + ", " + tc + "}")
  {
  }

  /** A header cut inside its key is no JSON object: the key's string is left open. */
  lemma KeyOpeningRefused(ts: int)
    ensures Json.LoadsObject(KeyOpening(ts)).Fail?
  {
    var h := KeyOpening(ts);
    var m0: Json.Member := ("t", Json.JInt(ts));
    var open := "\"";
    var second := Json.Quote("k") + (": " + open);
    var after := ", " + second;
    assert h == "{" + (Json.MemberText(m0, ": ") + after);
    assert Json.SkipWs(h) == h && h[1..] == Json.MemberText(m0, ": ") + after;
    assert Json.ParseMember(h[1..]) == Ok((m0, after)) by {
      Json.MemberRoundTrip(m0, ": ", after);
    }
    Json.SkipItemSep(", ", second);
    assert Json.ParseString(second) == Ok(("k", ": " + open)) by {
      Json.QuoteRoundTrip("k", ": " + open);
    }
    Json.SkipKeySep(": ", open);
    assert Json.ParseMember(second).Fail?;
    assert Json.ParseMembers(h[1..]).Fail?;
  }

  /** The line of a field whose key is the separator is split inside its header. */
  lemma SeparatorKeySplit(f: Field)
    requires f.key == LegacySeparator
    ensures Text.Contains(HeaderText(f), LegacySeparator)
    ensures Text.SplitOnce(LineText(f), LegacySeparator)
            == Some((KeyOpening(f.ts), KeyClosing(f.crc) + LegacySeparator + Json.Quote(f.payload)))
  {
    var h0 := KeyOpening(f.ts);
    var closing := KeyClosing(f.crc);
    var q := Json.Quote(f.payload);
    assert HeaderText(f) == h0 + LegacySeparator + closing by {
      HeaderAroundKey(f);
    }
    assert Text.OccursAt(HeaderText(f), LegacySeparator, |h0|);
    assert LineText(f) == h0 + LegacySeparator + (closing + LegacySeparator + q) by {
      LineAssoc(h0, LegacySeparator, closing, q);
    }
    assert '|' !in h0 by {
      Json.MemberTextHas(("t", Json.JInt(f.ts)), ": ", '|');
      Json.QuoteHas("k", '|');
    }
    Text.SplitOnceBeforeSecond(h0, LegacySeparator, closing + LegacySeparator + q);
  }

  lemma LineAssoc(h: string, sep: string, c: string, q: string)
    ensures h + sep + c + sep + q == h + sep + (c + sep + q)
  {
  }

  /** The line of a field whose key is the separator fails to parse. */
  lemma SeparatorKeyLine(f: Field)
    requires f.key == LegacySeparator
    ensures Text.Contains(HeaderText(f), LegacySeparator)
    ensures SakDbFields.ParseFieldLine(LineText(f), LegacySeparator).Fail?
  {
    SeparatorKeySplit(f);
    KeyOpeningRefused(f.ts);
  }

  /** A type line followed by field lines that fail to load fails. */
  lemma LoadFromTypedFails(line: string, rest: seq<string>, name: string)
    requires line != [] && Text.Strip(line) == line && TypeHeader(line) == Ok(Some(name))
    requires SakDbFields.LoadLines(rest, LegacySeparator).Fail?
    ensures LoadFrom([line] + rest).Fail?
  {
    assert ([line] + rest)[1..] == rest;
  }

  /**
   * `data_object_dumps` writes a field whose key is the separator unchecked,
   * and `data_object_loads` then splits that line inside the key and fails;
   * the checked dump refuses such a record instead.
   */
  lemma DumpsNotReadable(r: Record, i: nat)
    requires i < |r.fields| && r.fields[i].key == LegacySeparator
    ensures Loads(Dumps(r)).Fail?
    ensures DumpsChecked(r).Fail?
  {
    var line := TypeLine(r.typeName);
    var rest := FieldLines(r.fields);
    SeparatorKeyLine(r.fields[i]);
    assert Text.SplitLines(Dumps(r)) == [line] + rest by {
      DumpsLayout(r);
      FieldLinesAt(r.fields);
    }
    assert SakDbFields.LoadLines(rest, LegacySeparator).Fail? by {
      FieldLinesAt(r.fields);
      LineTextShape(r.fields[i]);
      SakDbFields.LoadLinesFailsAt(rest, LegacySeparator, i);
    }
    TypeLineShape(r.typeName);
    TypeHeaderOf(r.typeName);
    LoadFromTypedFails(line, rest, r.typeName);
  }

  // ------------------------------------------------------ merge

  /** `order` lists the union of both sides' keys once each, in the order set iteration yields them. */
  ghost predicate Enumerates(order: seq<string>, ours: seq<Field>, theirs: seq<Field>) {
    (forall i, j :: 0 <= i < j < |order| ==> order[i] != order[j])
    && forall k :: k in order <==> k in SakDbFields.GetKeys(ours) || k in SakDbFields.GetKeys(theirs)
  }

  /** The two-sided branch of `merge`: the winner of each key, keys visited in `order`. */
  function MergeFields(ours: seq<Field>, theirs: seq<Field>, order: seq<string>): (r: seq<Field>)
    requires Enumerates(order, ours, theirs)
    ensures |r| == |order| && forall i :: 0 <= i < |r| ==> r[i].key == order[i]
  {
    seq(|order|, i requires 0 <= i < |order| =>
      assert order[i] in order;
      SakDbFields.Pick(ours, theirs, order[i]))
  }

  /**
   * `merge(base, ours, theirs)`, a missing record being None and `order` the
   * iteration order of the key set.  The type name is theirs', else ours'.
   */
  function Merge(base: Option<Record>, ours: Option<Record>, theirs: Option<Record>, order: seq<string>)
    : (r: Result<Record>)
    requires base.None? && ours.Some? && theirs.Some? ==> Enumerates(order, ours.value.fields, theirs.value.fields)
    ensures r.Fail? <==> ours.None? && theirs.None?
    ensures r.Ok? && theirs.Some? ==> r.value.typeName == theirs.value.typeName
    ensures r.Ok? && theirs.None? ==> r.value.typeName == ours.value.typeName
  {
    var fields :=
      if base.None? && ours.Some? && theirs.Some? then MergeFields(ours.value.fields, theirs.value.fields, order)
      else if base.None? && ours.Some? then ours.value.fields
      else if base.None? && theirs.Some? then theirs.value.fields
      else [];
    if theirs.Some? then Ok(Record(theirs.value.typeName, fields))
    else if ours.Some? then Ok(Record(ours.value.typeName, fields))
    else Fail(NoType)
  }

  /** One field per key, and each key's field is the winner of the two sides. */
  lemma MergeFieldsLookup(ours: seq<Field>, theirs: seq<Field>, order: seq<string>, k: string)
    requires Enumerates(order, ours, theirs)
    ensures var r := MergeFields(ours, theirs, order);
            (forall i, j :: 0 <= i < j < |r| ==> r[i].key != r[j].key)
            && SakDbFields.GetByKey(r, k) == SakDbFields.Winner(SakDbFields.GetByKey(ours, k), SakDbFields.GetByKey(theirs, k))
  {
    var r := MergeFields(ours, theirs, order);
    if k in order {
      var i :| 0 <= i < |order| && order[i] == k;
      SakDbFields.GetByKeyAt(r, i);
    } else {
      assert forall i :: 0 <= i < |r| ==> r[i].key != k by {
        assert forall i :: 0 <= i < |r| ==> order[i] in order;
      }
      assert SakDbFields.GetByKey(ours, k).None? && SakDbFields.GetByKey(theirs, k).None?;
    }
  }

  /** Two iteration orders give the same fields, only in another order. */
  lemma MergeOrderIrrelevant(ours: seq<Field>, theirs: seq<Field>, order1: seq<string>, order2: seq<string>)
    requires Enumerates(order1, ours, theirs) && Enumerates(order2, ours, theirs)
    ensures forall f :: f in MergeFields(ours, theirs, order1) <==> f in MergeFields(ours, theirs, order2)
  {
    var r1 := MergeFields(ours, theirs, order1);
    var r2 := MergeFields(ours, theirs, order2);
    forall f | f in r1 ensures f in r2 {
      var i :| 0 <= i < |r1| && r1[i] == f;
      assert order1[i] in order1;
      var j :| 0 <= j < |order2| && order2[j] == order1[i];
      assert r2[j] == f;
    }
    forall f | f in r2 ensures f in r1 {
      var j :| 0 <= j < |r2| && r2[j] == f;
      assert order2[j] in order2;
      var i :| 0 <= i < |order1| && order1[i] == order2[j];
      assert r1[i] == f;
    }
  }

  /** Visiting the keys in ascending order gives exactly the sakdb merge. */
  lemma MergeFieldsSorted(ours: seq<Field>, theirs: seq<Field>)
    ensures var order := SakDbFields.SortedUnique(SakDbFields.GetKeys(ours) + SakDbFields.GetKeys(theirs));
            Enumerates(order, ours, theirs)
            && MergeFields(ours, theirs, order) == SakDbFields.MergeBoth(ours, theirs)
  {
    var order := SakDbFields.SortedUnique(SakDbFields.GetKeys(ours) + SakDbFields.GetKeys(theirs));
    forall i, j | 0 <= i < j < |order| ensures order[i] != order[j] {
      Text.LessIrreflexive(order[i]);
    }
  }

  /** The branches of `merge` that take one side's fields or none. */
  lemma MergeCases(base: Option<Record>, ours: Option<Record>, theirs: Option<Record>, order: seq<string>)
    requires base.None? && ours.Some? && theirs.Some? ==> Enumerates(order, ours.value.fields, theirs.value.fields)
    ensures base.None? && ours.Some? && theirs.Some? ==>
              Merge(base, ours, theirs, order).value.fields == MergeFields(ours.value.fields, theirs.value.fields, order)
    ensures base.None? && ours.Some? && theirs.None? ==> Merge(base, ours, theirs, order) == Ok(ours.value)
    ensures base.None? && ours.None? && theirs.Some? ==> Merge(base, ours, theirs, order) == Ok(theirs.value)
    ensures base.Some? && (ours.Some? || theirs.Some?) ==> Merge(base, ours, theirs, order).value.fields == []
  {
  }
}

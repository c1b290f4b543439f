/**
 * The value-level rules of the storage layer: where a record lives, which
 * repository versions are readable, how a staged write carries timestamps
 * over, and how an object attribute is spread over the fields of the object's
 * "meta" record and read back from them.
 */
module StorageRules {
  import opened Wrappers
  import Text
  import Json
  import SakDbFields

  type Field = SakDbFields.Field

  /** A storage path as its components: `Path(a) / b / c` is `[a, b, c]`. */
  type Path = seq<string>

  // ---------------------------------------------------------------- paths

  /**
   * The path `read` and `write` use for the record `dataKey` of the object
   * `nodeKey`: sharded by the key's first four characters, an IndexError for a
   * shorter key.
   */
  function ObjectPath(ns: string, nodeKey: string, dataKey: string): (r: Result<Path>)
    ensures r.Fail? <==> |nodeKey| < 4
    ensures r.Fail? ==> r.error == ShortKey
  {
    if |nodeKey| < 4 then Fail(ShortKey)
    else Ok([ns, "objects", [nodeKey[0]], [nodeKey[1]], [nodeKey[2]], [nodeKey[3]], nodeKey, dataKey])
  }

  /** The path of a metadata entry. */
  function MetadataPath(ns: string, key: string): (r: Path)
    ensures |r| == 3 && r[0] == ns && r[2] == key
  {
    [ns, "metadata", key]
  }

  /** Distinct records of distinct objects never share a path, nor does an object share one with metadata. */
  lemma ObjectPathInjective(ns1: string, key1: string, data1: string, ns2: string, key2: string, data2: string)
    requires ObjectPath(ns1, key1, data1).Ok? && ObjectPath(ns2, key2, data2).Ok?
    requires ObjectPath(ns1, key1, data1).value == ObjectPath(ns2, key2, data2).value
    ensures ns1 == ns2 && key1 == key2 && data1 == data2
  {
    assert ObjectPath(ns1, key1, data1).value[6] == key1;
  }

  lemma ObjectPathApart(ns: string, key: string, data: string, ns2: string, mkey: string)
    requires ObjectPath(ns, key, data).Ok?
    ensures ObjectPath(ns, key, data).value != MetadataPath(ns2, mkey)
    ensures ObjectPath(ns, key, data).value[0] == ns
  {
  }

  // ---------------------------------------------------------------- version

  /** VERSION, the software's own version "0.0.1". */
  const Version: string := VersionText(0, 0, 1)

  /** `s.split(c)`: the pieces between the occurrences of `c`, empty pieces included. */
  function SplitChar(s: string, c: char): (r: seq<string>)
    ensures |r| >= 1
    ensures forall i :: 0 <= i < |r| ==> c !in r[i]
  {
    if s == [] then [""]
    else
      var rest := SplitChar(s[1..], c);
      if s[0] == c then [""] + rest
      else
        assert forall i :: 1 <= i < |rest| ==> c !in rest[i];
        [[s[0]] + rest[0]] + rest[1..]
  }

  lemma {:induction false} SplitCharPlain(a: string, c: char)
    requires c !in a
    ensures SplitChar(a, c) == [a]
  {
    if a != [] {
      SplitCharPlain(a[1..], c);
      assert a == [a[0]] + a[1..];
    }
  }

  lemma {:induction false} SplitCharAppend(a: string, c: char, b: string)
    requires c !in a
    ensures SplitChar(a + [c] + b, c) == [a] + SplitChar(b, c)
  {
    var s := a + [c] + b;
    if a == [] {
      assert s[1..] == b;
    } else {
      assert s[1..] == a[1..] + [c] + b;
      SplitCharAppend(a[1..], c, b);
      assert [a[0]] + a[1..] == a;
    }
  }

  /** Splitting `c.join(parts)` at `c` gives the parts back when none contains `c`. */
  lemma {:induction false} SplitCharJoin(parts: seq<string>, c: char)
    requires |parts| >= 1
    requires forall i :: 0 <= i < |parts| ==> c !in parts[i]
    ensures SplitChar(Text.Join(parts, [c]), c) == parts
  {
    if |parts| == 1 {
      SplitCharPlain(parts[0], c);
    } else {
      SplitCharAppend(parts[0], c, Text.Join(parts[1..], [c]));
      SplitCharJoin(parts[1..], c);
      assert parts == [parts[0]] + parts[1..];
    }
  }

  /**
   * The digits of `int(s)` for base 10: ASCII digits, each underscore standing
   * between two digits.
   */
  predicate IntDigits(s: string)
    decreases |s|
  {
    s != [] && Json.IsDigit(s[0])
    && (|s| == 1 || IntDigits(s[1..]) || (s[1] == '_' && IntDigits(s[2..])))
  }

  predicate DigitsOrUnderscores(s: string) {
    forall i :: 0 <= i < |s| ==> Json.IsDigit(s[i]) || s[i] == '_'
  }

  lemma {:induction false} IntDigitsChars(s: string)
    requires IntDigits(s)
    ensures DigitsOrUnderscores(s)
  {
    if |s| > 1 {
      if IntDigits(s[1..]) {
        IntDigitsChars(s[1..]);
        assert s == [s[0]] + s[1..];
      } else {
        IntDigitsChars(s[2..]);
        assert s == [s[0], s[1]] + s[2..];
      }
    }
  }

  /** The text with its underscores removed. */
  function DropUnderscores(s: string): (r: string)
    ensures DigitsOrUnderscores(s) ==> Json.AllDigits(r)
    ensures (forall i :: 0 <= i < |s| ==> s[i] != '_') ==> r == s
  {
    if s == [] then []
    else if s[0] == '_' then DropUnderscores(s[1..])
    else [s[0]] + DropUnderscores(s[1..])
  }

  /** `int(s)`: surrounding whitespace is stripped, and the rest read as a literal. */
  function PyInt(s: string): (r: Option<int>)
  {
    IntLiteral(Text.Strip(s))
  }

  /** An optional sign, then unsigned digits; None where `int()` raises ValueError. */
  function IntLiteral(t: string): (r: Option<int>)
  {
    if t != [] && t[0] == '-' then
      match Unsigned(t[1..])
      case None => None
      case Some(v) => Some(-(v as int))
    else if t != [] && t[0] == '+' then Unsigned(t[1..])
    else Unsigned(t)
  }

  /**
   * Digits in which an underscore may stand between two digits, read in
   * base 10. Non-ASCII decimal digits are not modelled.
   */
  function Unsigned(body: string): (r: Option<nat>)
  {
    if !IntDigits(body) then None
    else
      IntDigitsChars(body);
      Some(Json.DigitsValue(DropUnderscores(body)))
  }

  lemma UnsignedText(d: nat)
    ensures Unsigned(Json.NatText(d)) == Some(d)
  {
    Json.NatTextDigits(d);
    PlainDigits(Json.NatText(d));
  }

  /** The decimal text of an integer is a literal of that integer, with no space at either end. */
  lemma IntLiteralText(n: int)
    ensures var t := Json.IntText(n);
            t != [] && !Text.IsSpace(t[0]) && !Text.IsSpace(t[|t| - 1]) && IntLiteral(t) == Some(n)
  {
    IntTextEnds(n);
    var d := if n < 0 then -n else n;
    UnsignedText(d);
    if n < 0 {
      NegativeLiteral(Json.NatText(d));
    }
  }

  lemma IntTextEnds(n: int)
    ensures var t := Json.IntText(n);
            t != [] && !Text.IsSpace(t[0]) && !Text.IsSpace(t[|t| - 1])
  {
    var d := if n < 0 then -n else n;
    Json.NatTextDigits(d);
    var t := Json.IntText(n);
    var body := if n < 0 then t[1..] else t;
    assert body == Json.NatText(d);
    assert t[|t| - 1] == body[|body| - 1];
  }

  lemma NegativeLiteral(body: string)
    ensures IntLiteral("-" + body) == match Unsigned(body) case None => None case Some(v) => Some(-(v as int))
  {
    assert ("-" + body)[1..] == body;
  }

  /** `int(str(n)) == n`. */
  lemma PyIntText(n: int)
    ensures PyInt(Json.IntText(n)) == Some(n)
  {
    IntLiteralText(n);
    Text.StripUnchanged(Json.IntText(n));
  }

  lemma {:induction false} PlainDigits(ds: string)
    requires ds != [] && Json.AllDigits(ds)
    ensures IntDigits(ds) && DropUnderscores(ds) == ds
  {
    if |ds| > 1 {
      PlainDigits(ds[1..]);
    }
  }

  /** `int()` ignores whitespace around the number. */
  lemma PyIntPadded(n: int)
    ensures PyInt(" " + Json.IntText(n) + "\n") == Some(n)
  {
    IntLiteralText(n);
    Text.StripAround(Json.IntText(n), ' ', '\n');
  }

  /** `int()` reads a leading plus sign. */
  lemma PyIntPlus(n: nat)
    ensures PyInt("+" + Json.NatText(n)) == Some(n)
  {
    IntLiteralText(n);
    UnsignedText(n);
    var t := "+" + Json.NatText(n);
    assert t[1..] == Json.NatText(n);
    assert t[|t| - 1] == Json.NatText(n)[|Json.NatText(n)| - 1];
    Text.StripUnchanged(t);
  }

  /** `int()` skips an underscore that stands between two digits. */
  lemma PyIntUnderscore()
    ensures PyInt("1_0") == Some(10)
  {
    Text.StripUnchanged("1_0");
    assert IntDigits("1_0") by {
      assert "1_0"[2..] == "0";
    }
    assert DropUnderscores("1_0") == "10";
    assert Json.DigitsValue("10") == 10 by {
      assert "10"[..1] == "1";
    }
  }

  /** A doubled, leading or trailing underscore, a space after the sign, or no digits at all raises. */
  lemma PyIntRefuses()
    ensures PyInt("1__0") == None && PyInt("_1") == None && PyInt("1_") == None
    ensures PyInt("- 1") == None && PyInt("") == None && PyInt("1.0") == None
  {
    Text.StripUnchanged("1__0");
    Text.StripUnchanged("_1");
    Text.StripUnchanged("1_");
    Text.StripUnchanged("- 1");
    Text.StripUnchanged("1.0");
    Text.StripEmpty();
    assert !IntDigits("1__0") by {
      assert !IntDigits("__0") && !IntDigits("_0");
    }
    assert !IntDigits("1_") by {
      assert !IntDigits("_") && !IntDigits("");
    }
    assert !IntDigits("1.0") by {
      assert !IntDigits(".0") && !IntDigits("0"[1..]);
    }
  }

  /** The three integers of a version string; BadVersion unless it has exactly three integer parts. */
  function ParseVersion(version: string): (r: Result<(int, int, int)>)
    ensures r.Fail? ==> r.error == BadVersion
  {
    var parts := SplitChar(version, '.');
    if |parts| != 3 then Fail(BadVersion)
    else
      match (PyInt(parts[0]), PyInt(parts[1]), PyInt(parts[2]))
      case (Some(a), Some(b), Some(c)) => Ok((a, b, c))
      case _ => Fail(BadVersion)
  }

  function VersionText(major: int, minor: int, patch: int): string {
    Json.IntText(major) + "." + Json.IntText(minor) + "." + Json.IntText(patch)
  }

  /** Every version written as three integers parses back to them. */
  lemma ParseVersionText(major: int, minor: int, patch: int)
    ensures ParseVersion(VersionText(major, minor, patch)) == Ok((major, minor, patch))
  {
    var parts := [Json.IntText(major), Json.IntText(minor), Json.IntText(patch)];
    Json.IntTextPlain(major, '.');
    Json.IntTextPlain(minor, '.');
    Json.IntTextPlain(patch, '.');
    assert Text.Join(parts, ".") == VersionText(major, minor, patch) by {
      assert Text.Join(parts[2..], ".") == parts[2];
      assert Text.Join(parts[1..], ".") == parts[1] + "." + parts[2];
    }
    SplitCharJoin(parts, '.');
    PyIntText(major);
    PyIntText(minor);
    PyIntText(patch);
  }

  lemma DigitTexts()
    ensures Json.NatText(0) == "0" && Json.NatText(1) == "1" && Json.NatText(2) == "2"
  {
    assert Json.Digit(0) == '0' && Json.Digit(1) == '1' && Json.Digit(2) == '2';
  }

  lemma VersionTexts()
    ensures VersionText(1, 1, 2) == "1.1.2" && VersionText(-1, -1, 0) == "-1.-1.0"
  {
    DigitTexts();
  }

  /** This software's own version is 0.0.1. */
  lemma OwnVersion()
    ensures Version == "0.0.1"
    ensures ParseVersion(Version) == Ok((0, 0, 1))
  {
    DigitTexts();
    ParseVersionText(0, 0, 1);
  }

  /**
   * `_validate_version`: a repository is readable unless its major version is
   * greater than this software's; a malformed version string raises.
   */
  function ValidateVersion(version: string): (r: Result<bool>)
  {
    match ParseVersion(version)
    case Fail(e) => Fail(e)
    case Ok((major, _, _)) =>
      match ParseVersion(Version)
      case Fail(e) => Fail(e)
      case Ok((own, _, _)) => Ok(major <= own)
  }

  /** A three-integer version is accepted exactly when its major part is at most 0; anything else is refused. */
  lemma ValidateVersionMajor(version: string)
    ensures ValidateVersion(version).Fail? <==> ParseVersion(version).Fail?
    ensures ParseVersion(version).Ok? ==> ValidateVersion(version) == Ok(ParseVersion(version).value.0 <= 0)
  {
    OwnVersion();
  }

  /** Three dot-free parts joined with dots split back into those parts. */
  lemma SplitThree(a: string, b: string, c: string)
    requires '.' !in a && '.' !in b && '.' !in c
    ensures SplitChar(a + "." + b + "." + c, '.') == [a, b, c]
  {
    var parts := [a, b, c];
    assert Text.Join(parts, ".") == a + "." + b + "." + c by {
      assert Text.Join(parts[2..], ".") == c;
      assert Text.Join(parts[1..], ".") == b + "." + c;
    }
    SplitCharJoin(parts, '.');
  }

  /** Whitespace around each part of a version is ignored, as `int()` ignores it. */
  lemma ValidateVersionPadded(major: int, minor: int, patch: int)
    ensures var pad := (n: int) => " " + Json.IntText(n) + "\n";
            ParseVersion(pad(major) + "." + pad(minor) + "." + pad(patch)) == Ok((major, minor, patch))
            && ValidateVersion(pad(major) + "." + pad(minor) + "." + pad(patch)) == Ok(major <= 0)
  {
    var pad := (n: int) => " " + Json.IntText(n) + "\n";
    Json.IntTextPlain(major, '.');
    Json.IntTextPlain(minor, '.');
    Json.IntTextPlain(patch, '.');
    SplitThree(pad(major), pad(minor), pad(patch));
    PyIntPadded(major);
    PyIntPadded(minor);
    PyIntPadded(patch);
    OwnVersion();
  }

  /** The versions the storage tests use: "1.1.2" is refused, "0.0.1" and "-1.-1.0" are accepted. */
  lemma ValidateVersionExamples()
    ensures VersionText(1, 1, 2) == "1.1.2" && ValidateVersion(VersionText(1, 1, 2)) == Ok(false)
    ensures ValidateVersion(Version) == Ok(true)
    ensures VersionText(-1, -1, 0) == "-1.-1.0" && ValidateVersion(VersionText(-1, -1, 0)) == Ok(true)
  {
    OwnVersion();
    VersionTexts();
    ParseVersionText(1, 1, 2);
    ParseVersionText(-1, -1, 0);
  }

  /** A version with two parts, or with a part that is not an integer, is refused. */
  lemma ValidateVersionRefuses(a: int, b: int, s: string)
    requires '.' !in s && PyInt(s).None?
    ensures ValidateVersion(Json.IntText(a) + "." + Json.IntText(b)).Fail?
    ensures ValidateVersion(Json.IntText(a) + "." + Json.IntText(b) + "." + s).Fail?
  {
    Json.IntTextPlain(a, '.');
    Json.IntTextPlain(b, '.');
    var two := [Json.IntText(a), Json.IntText(b)];
    assert Text.Join(two, ".") == Json.IntText(a) + "." + Json.IntText(b) by {
      assert Text.Join(two[1..], ".") == two[1];
    }
    SplitCharJoin(two, '.');
    var three := [Json.IntText(a), Json.IntText(b), s];
    assert Text.Join(three, ".") == Json.IntText(a) + "." + Json.IntText(b) + "." + s by {
      assert Text.Join(three[2..], ".") == three[2];
      assert Text.Join(three[1..], ".") == three[1] + "." + three[2];
    }
    SplitCharJoin(three, '.');
  }

  // ---------------------------------------------------------------- timestamps

  predicate UniqueKeys(fields: seq<Field>) {
    forall i, j :: 0 <= i < j < |fields| ==> fields[i].key != fields[j].key
  }

  lemma SortedKeysUnique(fields: seq<Field>)
    requires SakDbFields.KeysStrictlySorted(fields)
    ensures UniqueKeys(fields)
  {
    forall i, j | 0 <= i < j < |fields| ensures fields[i].key != fields[j].key {
      Text.LessIrreflexive(fields[i].key);
    }
  }

  /**
   * One turn of the timestamp loop: the first field of `value` with `p`'s key
   * takes `p`'s timestamp when the two carry the same crc.
   */
  function InheritStep(p: Field, value: seq<Field>): (r: seq<Field>)
    ensures |r| == |value|
    ensures forall i :: 0 <= i < |r| ==> r[i] == value[i].(ts := r[i].ts)
  {
    match SakDbFields.KeyIndexFrom(value, p.key, 0)
    case None => value
    case Some(i) => if value[i].crc == p.crc then value[i := value[i].(ts := p.ts)] else value
  }

  /**
   * The timestamp loop of `write` and `session_apply_sakdb`: for each previous
   * field in order, a new field with the same key and crc takes its timestamp.
   */
  function Inherit(prev: seq<Field>, value: seq<Field>): (r: seq<Field>)
    ensures |r| == |value|
    ensures forall i :: 0 <= i < |r| ==> r[i] == value[i].(ts := r[i].ts)
  {
    if prev == [] then value else InheritStep(prev[|prev| - 1], Inherit(prev[..|prev| - 1], value))
  }

  /** Changing only timestamps leaves every lookup's key, crc and payload as they were. */
  lemma RetimedLookup(value: seq<Field>, r: seq<Field>, k: string)
    requires |r| == |value|
    requires forall i :: 0 <= i < |r| ==> r[i] == value[i].(ts := r[i].ts)
    ensures SakDbFields.GetByKey(r, k).Some? <==> SakDbFields.GetByKey(value, k).Some?
    ensures SakDbFields.GetByKey(r, k).Some? ==>
              SakDbFields.GetByKey(r, k).value == SakDbFields.GetByKey(value, k).value.(ts := SakDbFields.GetByKey(r, k).value.ts)
  {
    if SakDbFields.GetByKey(value, k).Some? {
      var i :| 0 <= i < |value| && value[i] == SakDbFields.GetByKey(value, k).value && value[i].key == k
               && forall j :: 0 <= j < i ==> value[j].key != k;
      SakDbFields.GetByKeyAt(r, i);
    }
  }

  lemma InheritStepLookup(p: Field, value: seq<Field>, k: string)
    ensures var got := SakDbFields.GetByKey(value, k);
            SakDbFields.GetByKey(InheritStep(p, value), k) ==
              if got.Some? && k == p.key && got.value.crc == p.crc then Some(got.value.(ts := p.ts)) else got
  {
    var got := SakDbFields.GetByKey(value, k);
    var r := InheritStep(p, value);
    match SakDbFields.KeyIndexFrom(value, p.key, 0)
    case None =>
    case Some(i) =>
      if value[i].crc == p.crc {
        if k == p.key {
          SakDbFields.GetByKeyAt(value, i);
          SakDbFields.GetByKeyAt(r, i);
        } else if got.Some? {
          var j :| 0 <= j < |value| && value[j] == got.value && value[j].key == k
                   && forall m :: 0 <= m < j ==> value[m].key != k;
          SakDbFields.GetByKeyAt(r, j);
        }
      }
  }

  /** In a record with distinct keys, the last field answers its own key and the rest answer every other. */
  lemma LastLookup(prev: seq<Field>, k: string)
    requires prev != [] && UniqueKeys(prev)
    ensures var init := prev[..|prev| - 1];
            var p := prev[|prev| - 1];
            SakDbFields.GetByKey(prev, k) == (if k == p.key then Some(p) else SakDbFields.GetByKey(init, k))
            && (k == p.key ==> SakDbFields.GetByKey(init, k).None?)
  {
    var init := prev[..|prev| - 1];
    var p := prev[|prev| - 1];
    if k == p.key {
      assert forall j :: 0 <= j < |init| ==> init[j].key != k by {
        forall j | 0 <= j < |init| ensures init[j].key != k {
          assert prev[j] == init[j];
        }
      }
      SakDbFields.GetByKeyAt(prev, |prev| - 1);
    } else if SakDbFields.GetByKey(init, k).Some? {
      var j :| 0 <= j < |init| && init[j] == SakDbFields.GetByKey(init, k).value && init[j].key == k
               && forall m :: 0 <= m < j ==> init[m].key != k;
      SakDbFields.GetByKeyAt(prev, j);
    } else {
      assert forall j :: 0 <= j < |prev| ==> prev[j].key != k by {
        forall j | 0 <= j < |prev| ensures prev[j].key != k {
          if j < |init| { assert prev[j] == init[j]; }
        }
      }
    }
  }

  /**
   * With previous keys distinct, a lookup in the retimed record finds the new
   * field, carrying the previous field's timestamp exactly when their crcs agree.
   */
  lemma {:induction false} InheritLookup(prev: seq<Field>, value: seq<Field>, k: string)
    requires UniqueKeys(prev)
    ensures var got := SakDbFields.GetByKey(value, k);
            var was := SakDbFields.GetByKey(prev, k);
            SakDbFields.GetByKey(Inherit(prev, value), k) ==
              if got.Some? && was.Some? && got.value.crc == was.value.crc then Some(got.value.(ts := was.value.ts)) else got
  {
    if prev != [] {
      var init := prev[..|prev| - 1];
      var w := Inherit(init, value);
      assert UniqueKeys(init);
      InheritLookup(init, value, k);
      InheritStepLookup(prev[|prev| - 1], w, k);
      RetimedLookup(value, w, k);
      LastLookup(prev, k);
    }
  }

  /** A record that is its own previous version, with distinct keys, keeps every timestamp. */
  lemma InheritSelf(value: seq<Field>)
    requires UniqueKeys(value)
    ensures Inherit(value, value) == value
  {
    var r := Inherit(value, value);
    forall i | 0 <= i < |value| ensures r[i] == value[i] {
      var k := value[i].key;
      SakDbFields.GetByKeyAt(value, i);
      InheritLookup(value, value, k);
      SakDbFields.GetByKeyAt(r, i);
    }
  }

  /**
   * `SakDbSessionChanges.write`: the record staged for a path after writing
   * `value` over the one already staged there.
   */
  function StagedWrite(staged: Option<seq<Field>>, value: seq<Field>): seq<Field>
  {
    var retimed := if staged.Some? then Inherit(staged.value, value) else value;
    SakDbFields.Merge(None, Some(retimed), staged)
  }

  /**
   * Per key, a staged write keeps what the staged record holds unless the new
   * value changes the content: a field with the staged crc keeps the staged
   * field, a changed one wins only when strictly newer, keys only on one side
   * come from that side.
   */
  lemma StagedWriteLookup(staged: Option<seq<Field>>, value: seq<Field>, k: string)
    requires staged.Some? ==> UniqueKeys(staged.value)
    ensures var got := SakDbFields.GetByKey(value, k);
            var was := if staged.Some? then SakDbFields.GetByKey(staged.value, k) else None;
            SakDbFields.GetByKey(StagedWrite(staged, value), k) ==
              if got.Some? && was.Some? && got.value.crc == was.value.crc then was
              else SakDbFields.Winner(got, was)
  {
    if staged.Some? {
      var retimed := Inherit(staged.value, value);
      SakDbFields.MergeBothLookup(retimed, staged.value, k);
      InheritLookup(staged.value, value, k);
    }
  }

  /**
   * Reassigning a short payload inside one session: a newer field with a
   * different payload of at most fifteen characters replaces the staged one,
   * its default crc differing from the staged field's.
   */
  lemma StagedReassign(key: string, before: string, after: string, t0: int, t1: int)
    requires |before| <= 15 && |after| <= 15
    requires SakDbFields.ByteChars(before) && SakDbFields.ByteChars(after)
    requires before != after && t0 < t1
    ensures var was := SakDbFields.NewField(before, t0, key, None);
            var got := SakDbFields.NewField(after, t1, key, None);
            SakDbFields.GetByKey(StagedWrite(Some([was]), [got]), key) == Some(got)
  {
    var was := SakDbFields.NewField(before, t0, key, None);
    var got := SakDbFields.NewField(after, t1, key, None);
    SakDbFields.PayloadMd5Injective(before, after);
    StagedWriteLookup(Some([was]), [got], key);
  }

  /** Once something is staged, the staged record lists every key of both sides once, in ascending order. */
  lemma StagedWriteSorted(staged: seq<Field>, value: seq<Field>)
    ensures var r := StagedWrite(Some(staged), value);
            SakDbFields.KeysStrictlySorted(r)
            && forall k :: SakDbFields.GetByKey(r, k).Some? <==>
                             SakDbFields.GetByKey(value, k).Some? || SakDbFields.GetByKey(staged, k).Some?
  {
    var retimed := Inherit(staged, value);
    SakDbFields.MergeBothKeys(retimed, staged);
    forall k {
      RetimedLookup(value, retimed, k);
    }
  }

  /** A staged write keeps the keys of a staged record distinct when the new value's are. */
  lemma StagedWriteUnique(staged: Option<seq<Field>>, value: seq<Field>)
    requires UniqueKeys(value)
    ensures UniqueKeys(StagedWrite(staged, value))
  {
    if staged.Some? {
      StagedWriteSorted(staged.value, value);
      SortedKeysUnique(StagedWrite(staged, value));
    } else {
      SakDbFields.MergeCases(None, Some(value), None);
    }
  }

  // ---------------------------------------------------------------- attributes

  /** An attribute value the model carries: a JSON scalar, or a list or a dict of them. */
  datatype Attr =
    | Scalar(v: Json.Scalar)
    | ListOf(items: seq<Json.Scalar>)
    | DictOf(entries: seq<(string, Json.Scalar)>)   // a dict as its entries in insertion order

  /** `type(v).__name__` for a scalar. */
  function TypeName(v: Json.Scalar): string {
    match v
    case JStr(_) => "str"
    case JInt(_) => "int"
  }

  /** The key of the field naming an attribute's type. */
  function TypeKey(name: string): string { "_" + name + ":type" }

  /** What the keys of a list's or a dict's item fields start with. */
  function ItemPrefix(name: string): string { name + ":" }

  function ListFields(name: string, items: seq<Json.Scalar>, now: int): (r: seq<Field>)
    ensures |r| == |items|
    ensures forall i :: 0 <= i < |r| ==>
              r[i] == SakDbFields.NewField(Json.ScalarText(items[i]), now, ItemPrefix(name) + Json.NatText(i), None)
  {
    seq(|items|, i requires 0 <= i < |items| =>
      SakDbFields.NewField(Json.ScalarText(items[i]), now, ItemPrefix(name) + Json.NatText(i), None))
  }

  function DictFields(name: string, entries: seq<(string, Json.Scalar)>, now: int): (r: seq<Field>)
    ensures |r| == |entries|
    ensures forall i :: 0 <= i < |r| ==>
              r[i] == SakDbFields.NewField(Json.ScalarText(entries[i].1), now, ItemPrefix(name) + entries[i].0, None)
  {
    seq(|entries|, i requires 0 <= i < |entries| =>
      SakDbFields.NewField(Json.ScalarText(entries[i].1), now, ItemPrefix(name) + entries[i].0, None))
  }

  /**
   * The fields `__setattr__` builds for an attribute: the type field first,
   * then one field per list item, per dict entry, or for the scalar; `now`
   * stands for the clock readings.
   */
  function Encode(name: string, a: Attr, now: int): (r: seq<Field>)
    ensures r != [] && r[0].key == TypeKey(name)
  {
    match a
    case Scalar(v) =>
      [SakDbFields.NewField(TypeName(v), now, TypeKey(name), None),
       SakDbFields.NewField(Json.ScalarText(v), now, name, None)]
    case ListOf(items) => [SakDbFields.NewField("list", now, TypeKey(name), None)] + ListFields(name, items, now)
    case DictOf(entries) => [SakDbFields.NewField("dict", now, TypeKey(name), None)] + DictFields(name, entries, now)
  }

  /** The fields whose key starts with `prefix`, in their original order. */
  function WithKeyPrefix(fields: seq<Field>, prefix: string): (r: seq<Field>)
    ensures |r| <= |fields|
    ensures forall i :: 0 <= i < |r| ==> Text.StartsWith(r[i].key, prefix)
  {
    if fields == [] then []
    else (if Text.StartsWith(fields[0].key, prefix) then [fields[0]] else []) + WithKeyPrefix(fields[1..], prefix)
  }

  /** A list's items: each payload through `json.loads`, in field order. */
  function LoadItems(fields: seq<Field>): (r: Result<seq<Json.Scalar>>)
    ensures r.Ok? ==> |r.value| == |fields|
  {
    if fields == [] then Ok([])
    else
      match Json.LoadsScalar(fields[0].payload)
      case Fail(e) => Fail(e)
      case Ok(v) =>
        match LoadItems(fields[1..])
        case Fail(e) => Fail(e)
        case Ok(vs) => Ok([v] + vs)
  }

  /** `d[k] = v`: a new key goes last, a present key keeps its place. */
  function DictPut(entries: seq<(string, Json.Scalar)>, k: string, v: Json.Scalar): (r: seq<(string, Json.Scalar)>)
  {
    if entries == [] then [(k, v)]
    else if entries[0].0 == k then [(k, v)] + entries[1..]
    else [entries[0]] + DictPut(entries[1..], k, v)
  }

  /** A dict's entries: each key is what follows the first ':' of the field key, each value the loaded payload. */
  function LoadEntries(acc: seq<(string, Json.Scalar)>, fields: seq<Field>): (r: Result<seq<(string, Json.Scalar)>>)
    decreases |fields|
  {
    if fields == [] then Ok(acc)
    else
      match Json.LoadsScalar(fields[0].payload)
      case Fail(e) => Fail(e)
      case Ok(v) =>
        match Text.SplitOnce(fields[0].key, ":")
        case None => Fail(MissingSeparator)
        case Some((_, k)) => LoadEntries(DictPut(acc, k, v), fields[1..])
  }

  /**
   * `__getattribute__` on a stored attribute, given the object's "meta"
   * record: the type field decides between a list, a dict and a scalar.
   */
  function Decode(name: string, fields: seq<Field>): (r: Result<Attr>)
  {
    match SakDbFields.GetByKey(fields, TypeKey(name))
    case None => Fail(NoAttribute)
    case Some(t) =>
      if t.payload == "list" then
        match LoadItems(WithKeyPrefix(fields, ItemPrefix(name)))
        case Fail(e) => Fail(e)
        case Ok(items) => Ok(ListOf(items))
      else if t.payload == "dict" then
        match LoadEntries([], WithKeyPrefix(fields, ItemPrefix(name)))
        case Fail(e) => Fail(e)
        case Ok(entries) => Ok(DictOf(entries))
      else
        match SakDbFields.GetByKey(fields, name)
        case None => Fail(NoAttribute)
        case Some(f) =>
          match Json.LoadsScalar(f.payload)
          case Fail(e) => Fail(e)
          case Ok(v) => Ok(Scalar(v))
  }

  predicate UniqueEntryKeys(entries: seq<(string, Json.Scalar)>) {
    forall i, j :: 0 <= i < j < |entries| ==> entries[i].0 != entries[j].0
  }

  /** The type field never passes for an item field or for the scalar's field. */
  lemma TypeKeyApart(name: string)
    requires ':' !in name
    ensures !Text.StartsWith(TypeKey(name), ItemPrefix(name))
    ensures TypeKey(name) != name
  {
    var t := TypeKey(name);
    if |name| > 0 {
      assert t[|name|] == name[|name| - 1];
      assert ItemPrefix(name)[|name|] == ':';
    } else {
      assert t[0] == '_';
    }
    assert |t| > |name|;
  }

  lemma {:induction false} WithKeyPrefixAll(fields: seq<Field>, prefix: string)
    requires forall i :: 0 <= i < |fields| ==> Text.StartsWith(fields[i].key, prefix)
    ensures WithKeyPrefix(fields, prefix) == fields
  {
    if fields != [] {
      WithKeyPrefixAll(fields[1..], prefix);
      assert fields == [fields[0]] + fields[1..];
    }
  }

  lemma {:induction false} LoadItemsOf(fields: seq<Field>, items: seq<Json.Scalar>)
    requires |fields| == |items|
    requires forall i :: 0 <= i < |fields| ==> fields[i].payload == Json.ScalarText(items[i])
    ensures LoadItems(fields) == Ok(items)
  {
    if fields != [] {
      Json.LoadsScalarText(items[0]);
      LoadItemsOf(fields[1..], items[1..]);
      assert items == [items[0]] + items[1..];
    }
  }

  lemma {:induction false} DictPutNew(entries: seq<(string, Json.Scalar)>, k: string, v: Json.Scalar)
    requires forall i :: 0 <= i < |entries| ==> entries[i].0 != k
    ensures DictPut(entries, k, v) == entries + [(k, v)]
  {
    if entries != [] {
      DictPutNew(entries[1..], k, v);
      assert entries == [entries[0]] + entries[1..];
    }
  }

  lemma LoadEntriesStep(acc: seq<(string, Json.Scalar)>, f: Field, rest: seq<Field>, head: string, k: string, v: Json.Scalar)
    requires Json.LoadsScalar(f.payload) == Ok(v)
    requires Text.SplitOnce(f.key, ":") == Some((head, k))
    ensures LoadEntries(acc, [f] + rest) == LoadEntries(DictPut(acc, k, v), rest)
  {
    assert ([f] + rest)[1..] == rest;
  }

  lemma UniqueEntryKeysShift(acc: seq<(string, Json.Scalar)>, entries: seq<(string, Json.Scalar)>)
    requires entries != [] && UniqueEntryKeys(acc + entries)
    ensures forall i :: 0 <= i < |acc| ==> acc[i].0 != entries[0].0
    ensures (acc + [entries[0]]) + entries[1..] == acc + entries
  {
    forall i | 0 <= i < |acc| ensures acc[i].0 != entries[0].0 {
      assert (acc + entries)[i] == acc[i] && (acc + entries)[|acc|] == entries[0];
    }
    assert (acc + [entries[0]]) + entries[1..] == acc + ([entries[0]] + entries[1..]);
    assert [entries[0]] + entries[1..] == entries;
  }

  lemma {:induction false} LoadEntriesOf(acc: seq<(string, Json.Scalar)>, name: string, fields: seq<Field>, entries: seq<(string, Json.Scalar)>)
    requires ':' !in name
    requires |fields| == |entries| && UniqueEntryKeys(acc + entries)
    requires forall i :: 0 <= i < |fields| ==>
               fields[i].key == ItemPrefix(name) + entries[i].0 && fields[i].payload == Json.ScalarText(entries[i].1)
    ensures LoadEntries(acc, fields) == Ok(acc + entries)
    decreases |fields|
  {
    if fields == [] {
      assert acc + entries == acc;
    } else {
      var e := entries[0];
      Json.LoadsScalarText(e.1);
      assert fields[0].key == name + [':'] + e.0;
      Text.SplitOnceChar(name, ':', e.0);
      LoadEntriesStep(acc, fields[0], fields[1..], name, e.0, e.1);
      assert [fields[0]] + fields[1..] == fields;
      UniqueEntryKeysShift(acc, entries);
      DictPutNew(acc, e.0, e.1);
      LoadEntriesOf(acc + [e], name, fields[1..], entries[1..]);
    }
  }

  lemma DecodeEncodeScalar(name: string, v: Json.Scalar, now: int)
    requires ':' !in name
    ensures Decode(name, Encode(name, Scalar(v), now)) == Ok(Scalar(v))
  {
    var enc := Encode(name, Scalar(v), now);
    EncodeTypeField(name, Scalar(v), now);
    EncodeNameField(name, v, now);
    Json.LoadsScalarText(v);
    TypeNames(v);
    DecodeScalarBranch(enc, name, enc[0], SakDbFields.GetByKey(enc, name).value, v);
  }

  /** The first field of an encoding is the one found under the type key, and holds the type. */
  lemma EncodeTypeField(name: string, a: Attr, now: int)
    ensures var enc := Encode(name, a, now);
            SakDbFields.GetByKey(enc, TypeKey(name)) == Some(enc[0]) && enc[0].payload == TypePayload(a)
  {
    SakDbFields.GetByKeyAt(Encode(name, a, now), 0);
  }

  /** The scalar branch of `Decode`: a type that is neither list nor dict, and the field under the name. */
  lemma DecodeScalarBranch(fields: seq<Field>, name: string, t: Field, f: Field, v: Json.Scalar)
    requires SakDbFields.GetByKey(fields, TypeKey(name)) == Some(t) && t.payload != "list" && t.payload != "dict"
    requires SakDbFields.GetByKey(fields, name) == Some(f) && Json.LoadsScalar(f.payload) == Ok(v)
    ensures Decode(name, fields) == Ok(Scalar(v))
  {
  }

  lemma DecodeEncodeList(name: string, items: seq<Json.Scalar>, now: int)
    requires ':' !in name
    ensures Decode(name, Encode(name, ListOf(items), now)) == Ok(ListOf(items))
  {
    var enc := Encode(name, ListOf(items), now);
    EncodeTypeField(name, ListOf(items), now);
    EncodeListItems(name, items, now);
    LoadItemsOf(ListFields(name, items, now), items);
    DecodeListBranch(enc, name, enc[0], items);
  }

  /** The list branch of `Decode`: a "list" type field, and the prefixed fields loaded in order. */
  lemma DecodeListBranch(fields: seq<Field>, name: string, t: Field, items: seq<Json.Scalar>)
    requires SakDbFields.GetByKey(fields, TypeKey(name)) == Some(t) && t.payload == "list"
    requires LoadItems(WithKeyPrefix(fields, ItemPrefix(name))) == Ok(items)
    ensures Decode(name, fields) == Ok(ListOf(items))
  {
  }

  lemma DecodeEncodeDict(name: string, entries: seq<(string, Json.Scalar)>, now: int)
    requires ':' !in name
    requires UniqueEntryKeys(entries)
    ensures Decode(name, Encode(name, DictOf(entries), now)) == Ok(DictOf(entries))
  {
    var enc := Encode(name, DictOf(entries), now);
    EncodeTypeField(name, DictOf(entries), now);
    EncodeDictItems(name, entries, now);
    assert [] + entries == entries;
    LoadEntriesOf([], name, DictFields(name, entries, now), entries);
    DecodeDictBranch(enc, name);
  }

  lemma EncodeDictItems(name: string, entries: seq<(string, Json.Scalar)>, now: int)
    requires ':' !in name
    ensures WithKeyPrefix(Encode(name, DictOf(entries), now), ItemPrefix(name)) == DictFields(name, entries, now)
  {
    var enc := Encode(name, DictOf(entries), now);
    var fs := DictFields(name, entries, now);
    TypeKeyApart(name);
    WithKeyPrefixAll(fs, ItemPrefix(name));
    assert enc == [enc[0]] + fs;
  }

  /** `__getattribute__` reads back what `__setattr__` built, for an attribute name without ':'. */
  lemma DecodeEncode(name: string, a: Attr, now: int)
    requires ':' !in name
    requires a.DictOf? ==> UniqueEntryKeys(a.entries)
    ensures Decode(name, Encode(name, a, now)) == Ok(a)
  {
    match a
    case Scalar(v) => DecodeEncodeScalar(name, v, now);
    case ListOf(items) => DecodeEncodeList(name, items, now);
    case DictOf(entries) => DecodeEncodeDict(name, entries, now);
  }

  // ---------------------------------------------------------------- lookups through the filters

  lemma {:induction false} WithoutKeyPrefixLookup(fields: seq<Field>, prefix: string, k: string)
    ensures SakDbFields.GetByKey(SakDbFields.WithoutKeyPrefix(fields, prefix), k) ==
              if Text.StartsWith(k, prefix) then None else SakDbFields.GetByKey(fields, k)
  {
    if fields != [] {
      WithoutKeyPrefixLookup(fields[1..], prefix, k);
      var r := SakDbFields.WithoutKeyPrefix(fields, prefix);
      var t := SakDbFields.WithoutKeyPrefix(fields[1..], prefix);
      TailOfFirst(fields, k);
      if !Text.StartsWith(fields[0].key, prefix) {
        assert r == [fields[0]] + t;
        TailOfFirst(r, k);
        assert r[1..] == t;
      } else {
        assert r == t;
      }
    }
  }

  lemma {:induction false} WithKeyPrefixLookup(fields: seq<Field>, prefix: string, k: string)
    ensures SakDbFields.GetByKey(WithKeyPrefix(fields, prefix), k) ==
              if Text.StartsWith(k, prefix) then SakDbFields.GetByKey(fields, k) else None
  {
    if fields != [] {
      WithKeyPrefixLookup(fields[1..], prefix, k);
      var r := WithKeyPrefix(fields, prefix);
      var t := WithKeyPrefix(fields[1..], prefix);
      TailOfFirst(fields, k);
      if Text.StartsWith(fields[0].key, prefix) {
        assert r == [fields[0]] + t;
        TailOfFirst(r, k);
        assert r[1..] == t;
      } else {
        assert r == t;
      }
    }
  }

  /** A lookup either stops at the first field or goes on in the rest. */
  lemma TailOfFirst(fields: seq<Field>, k: string)
    requires fields != []
    ensures SakDbFields.GetByKey(fields, k) ==
              if fields[0].key == k then Some(fields[0]) else SakDbFields.GetByKey(fields[1..], k)
  {
    if fields[0].key == k {
      SakDbFields.GetByKeyAt(fields, 0);
    } else if SakDbFields.GetByKey(fields[1..], k).Some? {
      var t := fields[1..];
      var j :| 0 <= j < |t| && t[j] == SakDbFields.GetByKey(t, k).value && t[j].key == k
               && forall m :: 0 <= m < j ==> t[m].key != k;
      assert fields[j + 1] == t[j];
      SakDbFields.GetByKeyAt(fields, j + 1);
    } else {
      assert forall i :: 1 <= i < |fields| ==> fields[i] == fields[1..][i - 1];
    }
  }

  lemma ConsUnique(h: Field, t: seq<Field>)
    requires UniqueKeys(t) && forall j :: 0 <= j < |t| ==> t[j].key != h.key
    ensures UniqueKeys([h] + t)
  {
    var r := [h] + t;
    forall i, j | 0 <= i < j < |r| ensures r[i].key != r[j].key {
      if i == 0 { assert r[j] == t[j - 1]; } else { assert r[i] == t[i - 1] && r[j] == t[j - 1]; }
    }
  }

  lemma ConsSorted(h: Field, t: seq<Field>)
    requires SakDbFields.KeysStrictlySorted(t) && forall j :: 0 <= j < |t| ==> Text.Less(h.key, t[j].key)
    ensures SakDbFields.KeysStrictlySorted([h] + t)
  {
    var r := [h] + t;
    forall i, j | 0 <= i < j < |r| ensures Text.Less(r[i].key, r[j].key) {
      if i == 0 { assert r[j] == t[j - 1]; } else { assert r[i] == t[i - 1] && r[j] == t[j - 1]; }
    }
  }

  /** Keeping the fields with a prefix keeps fields of the record, in their order. */
  lemma {:induction false} WithKeyPrefixMembers(fields: seq<Field>, prefix: string)
    ensures forall f :: f in WithKeyPrefix(fields, prefix) <==> f in fields && Text.StartsWith(f.key, prefix)
  {
    if fields != [] {
      WithKeyPrefixMembers(fields[1..], prefix);
      assert fields == [fields[0]] + fields[1..];
    }
  }

  lemma {:induction false} WithKeyPrefixUnique(fields: seq<Field>, prefix: string)
    requires UniqueKeys(fields)
    ensures UniqueKeys(WithKeyPrefix(fields, prefix))
  {
    if fields != [] {
      var t := WithKeyPrefix(fields[1..], prefix);
      assert UniqueKeys(fields[1..]);
      WithKeyPrefixUnique(fields[1..], prefix);
      if Text.StartsWith(fields[0].key, prefix) {
        WithKeyPrefixMembers(fields[1..], prefix);
        forall j | 0 <= j < |t| ensures t[j].key != fields[0].key {
          assert t[j] in t;
          var m :| 0 <= m < |fields[1..]| && fields[1..][m] == t[j];
          assert fields[m + 1] == t[j];
        }
        ConsUnique(fields[0], t);
      }
    }
  }

  lemma {:induction false} WithKeyPrefixSorted(fields: seq<Field>, prefix: string)
    requires SakDbFields.KeysStrictlySorted(fields)
    ensures SakDbFields.KeysStrictlySorted(WithKeyPrefix(fields, prefix))
  {
    if fields != [] {
      var t := WithKeyPrefix(fields[1..], prefix);
      assert SakDbFields.KeysStrictlySorted(fields[1..]);
      WithKeyPrefixSorted(fields[1..], prefix);
      if Text.StartsWith(fields[0].key, prefix) {
        WithKeyPrefixMembers(fields[1..], prefix);
        forall j | 0 <= j < |t| ensures Text.Less(fields[0].key, t[j].key) {
          assert t[j] in t;
          var m :| 0 <= m < |fields[1..]| && fields[1..][m] == t[j];
          assert fields[m + 1] == t[j];
        }
        ConsSorted(fields[0], t);
      }
    }
  }

  lemma {:induction false} WithoutKeyPrefixUnique(fields: seq<Field>, prefix: string)
    requires UniqueKeys(fields)
    ensures UniqueKeys(SakDbFields.WithoutKeyPrefix(fields, prefix))
  {
    if fields != [] {
      var t := SakDbFields.WithoutKeyPrefix(fields[1..], prefix);
      assert UniqueKeys(fields[1..]);
      WithoutKeyPrefixUnique(fields[1..], prefix);
      if !Text.StartsWith(fields[0].key, prefix) {
        SakDbFields.WithoutKeyPrefixMembers(fields[1..], prefix);
        forall j | 0 <= j < |t| ensures t[j].key != fields[0].key {
          assert t[j] in t;
          var m :| 0 <= m < |fields[1..]| && fields[1..][m] == t[j];
          assert fields[m + 1] == t[j];
        }
        ConsUnique(fields[0], t);
      }
    }
  }

  // ---------------------------------------------------------------- assigning an attribute

  lemma NatTextInjective(i: nat, j: nat)
    requires Json.NatText(i) == Json.NatText(j)
    ensures i == j
  {
    Json.NatTextDigits(i);
    Json.NatTextDigits(j);
  }

  lemma PrefixedKey(p: string, x: string, y: string)
    ensures Text.StartsWith(p + x, p)
    ensures p + x == p + y ==> x == y
  {
    assert (p + x)[..|p|] == p;
    assert (p + x)[|p|..] == x && (p + y)[|p|..] == y;
  }

  lemma ListFieldsKeys(name: string, items: seq<Json.Scalar>, now: int)
    ensures var fs := ListFields(name, items, now);
            UniqueKeys(fs) && forall i :: 0 <= i < |fs| ==> Text.StartsWith(fs[i].key, ItemPrefix(name))
  {
    var fs := ListFields(name, items, now);
    var p := ItemPrefix(name);
    forall i | 0 <= i < |fs| ensures Text.StartsWith(fs[i].key, p) {
      PrefixedKey(p, Json.NatText(i), "");
    }
    forall i, j | 0 <= i < j < |fs| ensures fs[i].key != fs[j].key {
      PrefixedKey(p, Json.NatText(i), Json.NatText(j));
      if Json.NatText(i) == Json.NatText(j) {
        NatTextInjective(i, j);
      }
    }
  }

  lemma DictFieldsKeys(name: string, entries: seq<(string, Json.Scalar)>, now: int)
    requires UniqueEntryKeys(entries)
    ensures var fs := DictFields(name, entries, now);
            UniqueKeys(fs) && forall i :: 0 <= i < |fs| ==> Text.StartsWith(fs[i].key, ItemPrefix(name))
  {
    var fs := DictFields(name, entries, now);
    var p := ItemPrefix(name);
    forall i | 0 <= i < |fs| ensures Text.StartsWith(fs[i].key, p) {
      PrefixedKey(p, entries[i].0, "");
    }
    forall i, j | 0 <= i < j < |fs| ensures fs[i].key != fs[j].key {
      PrefixedKey(p, entries[i].0, entries[j].0);
    }
  }

  /** After the type field, an attribute's fields are its scalar field or its item fields, all distinct. */
  lemma EncodeKeys(name: string, a: Attr, now: int)
    requires a.DictOf? ==> UniqueEntryKeys(a.entries)
    ensures var enc := Encode(name, a, now);
            UniqueKeys(enc[1..]) &&
            forall i :: 1 <= i < |enc| ==>
              (a.Scalar? && enc[i].key == name) || (!a.Scalar? && Text.StartsWith(enc[i].key, ItemPrefix(name)))
  {
    var enc := Encode(name, a, now);
    match a
    case Scalar(v) =>
    case ListOf(items) =>
      ListFieldsKeys(name, items, now);
      assert enc[1..] == ListFields(name, items, now);
    case DictOf(entries) =>
      DictFieldsKeys(name, entries, now);
      assert enc[1..] == DictFields(name, entries, now);
  }

  /** The fields of one attribute carry distinct keys. */
  lemma EncodeUnique(name: string, a: Attr, now: int)
    requires ':' !in name
    requires a.DictOf? ==> UniqueEntryKeys(a.entries)
    ensures UniqueKeys(Encode(name, a, now))
  {
    var enc := Encode(name, a, now);
    TypeKeyApart(name);
    EncodeKeys(name, a, now);
    var t := enc[1..];
    forall j | 0 <= j < |t| ensures t[j].key != enc[0].key {
      assert t[j] == enc[j + 1];
    }
    ConsUnique(enc[0], t);
    assert enc == [enc[0]] + t;
  }

  /** The attribute's old fields removed, as the two `drop_by_key_prefix` calls of `__setattr__` remove them. */
  function DropAttr(fields: seq<Field>, name: string): seq<Field>
  {
    SakDbFields.WithoutKeyPrefix(SakDbFields.WithoutKeyPrefix(fields, TypeKey(name)), ItemPrefix(name))
  }

  lemma DropAttrLookup(fields: seq<Field>, name: string, k: string)
    ensures SakDbFields.GetByKey(DropAttr(fields, name), k) ==
              if Text.StartsWith(k, TypeKey(name)) || Text.StartsWith(k, ItemPrefix(name)) then None
              else SakDbFields.GetByKey(fields, k)
  {
    WithoutKeyPrefixLookup(fields, TypeKey(name), k);
    WithoutKeyPrefixLookup(SakDbFields.WithoutKeyPrefix(fields, TypeKey(name)), ItemPrefix(name), k);
  }

  /**
   * The "meta" record `__setattr__` writes, given the one it read: the new
   * fields alone, or merged over the previous record stripped of the
   * attribute's old fields.
   */
  function UpdateMeta(previous: Option<seq<Field>>, name: string, a: Attr, now: int): seq<Field>
  {
    match previous
    case None => Encode(name, a, now)
    case Some(p) => SakDbFields.Merge(None, Some(Encode(name, a, now)), Some(DropAttr(p, name)))
  }

  /** The keys `__getattribute__` consults for an attribute holding `a`. */
  predicate AttrKey(name: string, a: Attr, k: string) {
    k == TypeKey(name) || (a.Scalar? && k == name) || (!a.Scalar? && Text.StartsWith(k, ItemPrefix(name)))
  }

  predicate SamePayload(x: Option<Field>, y: Option<Field>) {
    (x.None? <==> y.None?) && (x.Some? && y.Some? ==> x.value.payload == y.value.payload)
  }

  /** On every key it consults, `record` answers with the payloads the encoding of `a` holds. */
  ghost predicate Shows(record: seq<Field>, name: string, a: Attr, now: int) {
    forall k :: AttrKey(name, a, k) ==>
      SamePayload(SakDbFields.GetByKey(record, k), SakDbFields.GetByKey(Encode(name, a, now), k))
  }

  /**
   * A scalar's previous field is older than the assignment, and a previous
   * field with the new payload's crc holds that payload (no digest collision).
   */
  predicate NameFieldOlder(fields: seq<Field>, name: string, a: Attr, now: int) {
    a.Scalar? ==> FieldOlder(fields, name, Json.ScalarText(a.v), now)
  }

  /**
   * Every field under `key` is older than `now`, and one that carries the
   * digest of `payload` carries `payload` itself.
   */
  predicate FieldOlder(fields: seq<Field>, key: string, payload: string, now: int) {
    forall i :: 0 <= i < |fields| && fields[i].key == key ==>
      fields[i].ts < now && (fields[i].crc == SakDbFields.PayloadMd5(payload) ==> fields[i].payload == payload)
  }

  /** The scalar's own field of the encoding: the new payload, stamped `now`, with its digest. */
  lemma EncodeNameField(name: string, v: Json.Scalar, now: int)
    ensures var f := SakDbFields.GetByKey(Encode(name, Scalar(v), now), name);
            f.Some? && f.value.ts == now && f.value.payload == Json.ScalarText(v)
            && f.value.crc == SakDbFields.PayloadMd5(Json.ScalarText(v))
  {
    var enc := Encode(name, Scalar(v), now);
    assert enc[0].key != name by {
      assert |TypeKey(name)| > |name|;
    }
    SakDbFields.GetByKeyAt(enc, 1);
  }

  /** The scalar's name is neither a type key nor an item key of itself. */
  lemma NameApart(name: string)
    ensures !Text.StartsWith(name, TypeKey(name)) && !Text.StartsWith(name, ItemPrefix(name))
  {
  }

  /**
   * `__setattr__` writes a record that shows the new value on every key the
   * reader consults, with distinct keys, in ascending order once merged.
   */
  lemma UpdateMetaShows(previous: Option<seq<Field>>, name: string, a: Attr, now: int)
    requires ':' !in name
    requires a.DictOf? ==> UniqueEntryKeys(a.entries)
    requires previous.Some? ==> NameFieldOlder(previous.value, name, a, now)
    ensures Shows(UpdateMeta(previous, name, a, now), name, a, now)
    ensures UniqueKeys(UpdateMeta(previous, name, a, now))
    ensures previous.Some? ==> SakDbFields.KeysStrictlySorted(UpdateMeta(previous, name, a, now))
  {
    var enc := Encode(name, a, now);
    match previous
    case None =>
      EncodeUnique(name, a, now);
    case Some(p) =>
      var d := DropAttr(p, name);
      var m := UpdateMeta(previous, name, a, now);
      SakDbFields.MergeBothKeys(enc, d);
      SortedKeysUnique(m);
      forall k | AttrKey(name, a, k)
        ensures SamePayload(SakDbFields.GetByKey(m, k), SakDbFields.GetByKey(enc, k))
      {
        SakDbFields.MergeBothLookup(enc, d, k);
        DropAttrLookup(p, name, k);
        if a.Scalar? && k == name {
          NameApart(name);
          EncodeNameField(name, a.v, now);
          OlderField(p, name, Json.ScalarText(a.v), now);
        }
      }
  }

  /**
   * When the record read came from the session, the two drops already cut the
   * staged record, and the write lands on it: the staged result still shows
   * the new value, in ascending key order.
   */
  lemma StagedShows(staged: seq<Field>, name: string, a: Attr, now: int)
    requires ':' !in name
    requires a.DictOf? ==> UniqueEntryKeys(a.entries)
    requires UniqueKeys(staged)
    requires NameFieldOlder(staged, name, a, now)
    ensures var r := StagedWrite(Some(DropAttr(staged, name)), UpdateMeta(Some(staged), name, a, now));
            Shows(r, name, a, now) && SakDbFields.KeysStrictlySorted(r) && UniqueKeys(r)
  {
    var enc := Encode(name, a, now);
    var d := DropAttr(staged, name);
    var m := UpdateMeta(Some(staged), name, a, now);
    var r := StagedWrite(Some(d), m);
    WithoutKeyPrefixUnique(staged, TypeKey(name));
    WithoutKeyPrefixUnique(SakDbFields.WithoutKeyPrefix(staged, TypeKey(name)), ItemPrefix(name));
    UpdateMetaShows(Some(staged), name, a, now);
    StagedWriteSorted(d, m);
    SortedKeysUnique(r);
    forall k | AttrKey(name, a, k)
      ensures SamePayload(SakDbFields.GetByKey(r, k), SakDbFields.GetByKey(enc, k))
    {
      if a.Scalar? && k == name {
        StagedShowsName(staged, name, a.v, now);
      } else {
        DropAttrLookup(staged, name, k);
        StagedShowsItem(d, m, enc, k);
      }
    }
  }

  /** A key the staged record lacks reads back, after a staged write, as the written value has it. */
  lemma StagedShowsItem(d: seq<Field>, m: seq<Field>, enc: seq<Field>, k: string)
    requires UniqueKeys(d) && SakDbFields.GetByKey(d, k).None?
    requires SamePayload(SakDbFields.GetByKey(m, k), SakDbFields.GetByKey(enc, k))
    ensures SamePayload(SakDbFields.GetByKey(StagedWrite(Some(d), m), k), SakDbFields.GetByKey(enc, k))
  {
    StagedWriteLookup(Some(d), m, k);
  }

  /** A written field newer than the staged one under its key, or equal to it in content, is what the key reads back as. */
  lemma NewerStands(d: seq<Field>, m: seq<Field>, f: Field, k: string)
    requires UniqueKeys(d) && SakDbFields.GetByKey(m, k) == Some(f)
    requires var w := SakDbFields.GetByKey(d, k);
             w.Some? ==> w.value.ts < f.ts && (w.value.crc == f.crc ==> w.value.payload == f.payload)
    ensures var g := SakDbFields.GetByKey(StagedWrite(Some(d), m), k);
            g.Some? && g.value.payload == f.payload
  {
    StagedWriteLookup(Some(d), m, k);
  }

  /** A scalar's own field: the new field is newer than the staged one, or carries the same payload. */
  lemma StagedShowsName(staged: seq<Field>, name: string, v: Json.Scalar, now: int)
    requires UniqueKeys(DropAttr(staged, name))
    requires NameFieldOlder(staged, name, Scalar(v), now)
    ensures var r := StagedWrite(Some(DropAttr(staged, name)), UpdateMeta(Some(staged), name, Scalar(v), now));
            SamePayload(SakDbFields.GetByKey(r, name), SakDbFields.GetByKey(Encode(name, Scalar(v), now), name))
  {
    var enc := Encode(name, Scalar(v), now);
    var d := DropAttr(staged, name);
    var m := UpdateMeta(Some(staged), name, Scalar(v), now);
    DropAttrLookup(staged, name, name);
    NameApart(name);
    EncodeNameField(name, v, now);
    OlderField(staged, name, Json.ScalarText(v), now);
    var f := SakDbFields.GetByKey(enc, name).value;
    SakDbFields.MergeBothLookup(enc, d, name);
    assert SakDbFields.GetByKey(m, name) == Some(f);
    NewerStands(d, m, f, name);
  }

  // ---------------------------------------------------------------- reading an attribute back

  function KeySet(fields: seq<Field>): set<string> {
    set i | 0 <= i < |fields| :: fields[i].key
  }

  lemma KeySetLookup(fields: seq<Field>, k: string)
    ensures k in KeySet(fields) <==> SakDbFields.GetByKey(fields, k).Some?
  {
    if SakDbFields.GetByKey(fields, k).Some? {
      var i :| 0 <= i < |fields| && fields[i].key == k;
      assert fields[i].key in KeySet(fields);
    }
  }

  /** Distinct keys: as many keys as fields. */
  lemma {:induction false} KeySetSize(fields: seq<Field>)
    requires UniqueKeys(fields)
    ensures |KeySet(fields)| == |fields|
  {
    if fields != [] {
      var t := fields[1..];
      assert UniqueKeys(t) by {
        forall i, j | 0 <= i < j < |t| ensures t[i].key != t[j].key {
          assert t[i] == fields[i + 1] && t[j] == fields[j + 1];
        }
      }
      KeySetSize(t);
      assert KeySet(fields) == {fields[0].key} + KeySet(t) by {
        forall k | k in KeySet(fields) ensures k in {fields[0].key} + KeySet(t) {
          var i :| 0 <= i < |fields| && fields[i].key == k;
          if i > 0 { assert t[i - 1] == fields[i]; }
        }
        forall k | k in KeySet(t) ensures k in KeySet(fields) {
          var i :| 0 <= i < |t| && t[i].key == k;
          assert fields[i + 1] == t[i];
        }
      }
      assert fields[0].key !in KeySet(t) by {
        forall i | 0 <= i < |t| ensures t[i].key != fields[0].key {
          assert t[i] == fields[i + 1];
        }
      }
    }
  }

  lemma UniqueLookup(fields: seq<Field>, i: nat)
    requires UniqueKeys(fields) && i < |fields|
    ensures SakDbFields.GetByKey(fields, fields[i].key) == Some(fields[i])
  {
    SakDbFields.GetByKeyAt(fields, i);
  }

  /** A field of `WithKeyPrefix(record, p)` is what a lookup of its key in `record` finds. */
  lemma PrefixedMember(record: seq<Field>, p: string, i: nat)
    requires UniqueKeys(record)
    requires i < |WithKeyPrefix(record, p)|
    ensures var w := WithKeyPrefix(record, p);
            SakDbFields.GetByKey(record, w[i].key) == Some(w[i]) && Text.StartsWith(w[i].key, p)
  {
    var w := WithKeyPrefix(record, p);
    WithKeyPrefixUnique(record, p);
    UniqueLookup(w, i);
    WithKeyPrefixLookup(record, p, w[i].key);
  }

  /** `d.get(k)` on a dictionary held as its entries in insertion order. */
  function DictGet(entries: seq<(string, Json.Scalar)>, k: string): (r: Option<Json.Scalar>)
    ensures r.None? <==> forall i :: 0 <= i < |entries| ==> entries[i].0 != k
    ensures r.Some? ==> exists i :: 0 <= i < |entries| && entries[i] == (k, r.value)
  {
    if entries == [] then None
    else if entries[0].0 == k then Some(entries[0].1)
    else DictGet(entries[1..], k)
  }

  /** `d[k] = v` followed by a read of `x`. */
  lemma {:induction false} DictPutGet(entries: seq<(string, Json.Scalar)>, k: string, v: Json.Scalar, x: string)
    ensures DictGet(DictPut(entries, k, v), x) == if x == k then Some(v) else DictGet(entries, x)
  {
    if entries != [] && entries[0].0 != k {
      DictPutGet(entries[1..], k, v, x);
    }
  }

  /** `d[k] = v` keeps the keys distinct. */
  lemma {:induction false} DictPutUnique(entries: seq<(string, Json.Scalar)>, k: string, v: Json.Scalar)
    requires UniqueEntryKeys(entries)
    ensures UniqueEntryKeys(DictPut(entries, k, v))
  {
    var r := DictPut(entries, k, v);
    if entries == [] {
    } else if entries[0].0 == k {
      forall i, j | 0 <= i < j < |r| ensures r[i].0 != r[j].0 {
        assert r[j] == entries[j];
        if i > 0 { assert r[i] == entries[i]; }
      }
    } else {
      var t := entries[1..];
      assert UniqueEntryKeys(t) by {
        forall i, j | 0 <= i < j < |t| ensures t[i].0 != t[j].0 {
          assert t[i] == entries[i + 1] && t[j] == entries[j + 1];
        }
      }
      DictPutUnique(t, k, v);
      var rt := DictPut(t, k, v);
      forall j | 0 <= j < |rt| ensures rt[j].0 != entries[0].0 {
        DictPutGet(t, k, v, entries[0].0);
        assert DictGet(t, entries[0].0).None? by {
          forall i | 0 <= i < |t| ensures t[i].0 != entries[0].0 {
            assert t[i] == entries[i + 1];
          }
        }
      }
      assert r == [entries[0]] + rt;
      forall i, j | 0 <= i < j < |r| ensures r[i].0 != r[j].0 {
        assert r[j] == rt[j - 1];
        if i > 0 { assert r[i] == rt[i - 1]; }
      }
    }
  }

  /**
   * Loading a dictionary from item fields with distinct keys: every key
   * `name:x` among them gives entry `x` with its loaded payload; other keys
   * keep what the accumulator held.
   */
  lemma {:induction false} LoadEntriesLookup(acc: seq<(string, Json.Scalar)>, name: string, fields: seq<Field>, x: string)
    requires ':' !in name
    requires UniqueKeys(fields)
    requires forall i :: 0 <= i < |fields| ==>
               Text.StartsWith(fields[i].key, ItemPrefix(name)) && Json.LoadsScalar(fields[i].payload).Ok?
    ensures LoadEntries(acc, fields).Ok?
    ensures UniqueEntryKeys(acc) ==> UniqueEntryKeys(LoadEntries(acc, fields).value)
    ensures DictGet(LoadEntries(acc, fields).value, x) ==
              match SakDbFields.GetByKey(fields, ItemPrefix(name) + x)
              case Some(f) => Some(Json.LoadsScalar(f.payload).value)
              case None => DictGet(acc, x)
    decreases |fields|
  {
    var p := ItemPrefix(name);
    if fields != [] {
      var f := fields[0];
      var t := fields[1..];
      var y := f.key[|p|..];
      var v := Json.LoadsScalar(f.payload).value;
      assert f.key == name + [':'] + y;
      Text.SplitOnceChar(name, ':', y);
      LoadEntriesStep(acc, f, t, name, y, v);
      assert [f] + t == fields;
      assert UniqueKeys(t) by {
        forall i, j | 0 <= i < j < |t| ensures t[i].key != t[j].key {
          assert t[i] == fields[i + 1] && t[j] == fields[j + 1];
        }
      }
      forall i | 0 <= i < |t| ensures Text.StartsWith(t[i].key, p) && Json.LoadsScalar(t[i].payload).Ok? {
        assert t[i] == fields[i + 1];
      }
      if UniqueEntryKeys(acc) {
        DictPutUnique(acc, y, v);
      }
      LoadEntriesLookup(DictPut(acc, y, v), name, t, x);
      DictPutGet(acc, y, v, x);
      TailOfFirst(fields, p + x);
      PrefixedKey(p, y, x);
      if f.key == p + x {
        forall i | 0 <= i < |t| ensures t[i].key != p + x {
          assert t[i] == fields[i + 1];
        }
      }
    }
  }

  /** The item fields of an encoded list, at their positions. */
  lemma EncodeListAt(name: string, items: seq<Json.Scalar>, now: int, i: nat)
    requires i < |items|
    ensures var enc := Encode(name, ListOf(items), now);
            |enc| == |items| + 1 && enc[i + 1].key == ItemPrefix(name) + Json.NatText(i)
            && enc[i + 1].payload == Json.ScalarText(items[i])
  {
    var enc := Encode(name, ListOf(items), now);
    assert enc[i + 1] == ListFields(name, items, now)[i];
  }

  /** The item fields of an encoded dictionary, at their positions. */
  lemma EncodeDictAt(name: string, entries: seq<(string, Json.Scalar)>, now: int, i: nat)
    requires i < |entries|
    ensures var enc := Encode(name, DictOf(entries), now);
            |enc| == |entries| + 1 && enc[i + 1].key == ItemPrefix(name) + entries[i].0
            && enc[i + 1].payload == Json.ScalarText(entries[i].1)
  {
    var enc := Encode(name, DictOf(entries), now);
    assert enc[i + 1] == DictFields(name, entries, now)[i];
  }

  /** The payload of the type field an encoding opens with. */
  function TypePayload(a: Attr): string {
    match a
    case Scalar(v) => TypeName(v)
    case ListOf(_) => "list"
    case DictOf(_) => "dict"
  }

  lemma ShowsType(record: seq<Field>, name: string, a: Attr, now: int)
    requires Shows(record, name, a, now)
    ensures SakDbFields.GetByKey(record, TypeKey(name)).Some?
    ensures SakDbFields.GetByKey(record, TypeKey(name)).value.payload == TypePayload(a)
  {
    var enc := Encode(name, a, now);
    SakDbFields.GetByKeyAt(enc, 0);
    assert AttrKey(name, a, TypeKey(name));
  }

  /** The item field of a dictionary's encoding under `name:x`: present exactly for the entries, loading to their values. */
  lemma EncodeDictLookup(name: string, entries: seq<(string, Json.Scalar)>, now: int, x: string)
    requires ':' !in name
    requires UniqueEntryKeys(entries)
    ensures var f := SakDbFields.GetByKey(Encode(name, DictOf(entries), now), ItemPrefix(name) + x);
            (f.Some? <==> DictGet(entries, x).Some?)
            && (f.Some? ==> Json.LoadsScalar(f.value.payload) == Ok(DictGet(entries, x).value))
  {
    var enc := Encode(name, DictOf(entries), now);
    var p := ItemPrefix(name);
    match DictGet(entries, x)
    case Some(v) =>
      var i :| 0 <= i < |entries| && entries[i] == (x, v);
      EncodeDictAt(name, entries, now, i);
      EncodeUnique(name, DictOf(entries), now);
      UniqueLookup(enc, i + 1);
      Json.LoadsScalarText(v);
    case None =>
      TypeKeyApart(name);
      PrefixedKey(p, x, "");
      forall j | 1 <= j < |enc| ensures enc[j].key != p + x {
        EncodeDictAt(name, entries, now, j - 1);
        PrefixedKey(p, entries[j - 1].0, x);
      }
  }

  /** Two attribute values Python would call equal: dictionaries compare by lookups, the rest structurally. */
  ghost predicate SameAttr(x: Attr, y: Attr) {
    if x.DictOf? && y.DictOf? then forall k :: DictGet(x.entries, k) == DictGet(y.entries, k) else x == y
  }

  lemma TypeNames(v: Json.Scalar)
    ensures TypeName(v) != "list" && TypeName(v) != "dict"
  {
  }

  lemma DecodeShowsScalar(record: seq<Field>, name: string, v: Json.Scalar, now: int)
    requires ':' !in name
    requires Shows(record, name, Scalar(v), now)
    ensures Decode(name, record) == Ok(Scalar(v))
  {
    ShowsType(record, name, Scalar(v), now);
    assert AttrKey(name, Scalar(v), name);
    TypeNames(v);
    EncodeNameField(name, v, now);
    Json.LoadsScalarText(v);
  }

  /** A dictionary-showing record's item field under `name:x` answers as the dictionary does for `x`. */
  lemma DictItemLookup(record: seq<Field>, name: string, entries: seq<(string, Json.Scalar)>, now: int, x: string)
    requires ':' !in name
    requires UniqueEntryKeys(entries)
    requires Shows(record, name, DictOf(entries), now)
    ensures var f := SakDbFields.GetByKey(WithKeyPrefix(record, ItemPrefix(name)), ItemPrefix(name) + x);
            (f.Some? <==> DictGet(entries, x).Some?)
            && (f.Some? ==> Json.LoadsScalar(f.value.payload) == Ok(DictGet(entries, x).value))
  {
    var p := ItemPrefix(name);
    PrefixedKey(p, x, "");
    WithKeyPrefixLookup(record, p, p + x);
    assert AttrKey(name, DictOf(entries), p + x);
    EncodeDictLookup(name, entries, now, x);
  }

  lemma DictItemsLoad(record: seq<Field>, name: string, entries: seq<(string, Json.Scalar)>, now: int)
    requires ':' !in name
    requires UniqueEntryKeys(entries)
    requires UniqueKeys(record)
    requires Shows(record, name, DictOf(entries), now)
    ensures var w := WithKeyPrefix(record, ItemPrefix(name));
            UniqueKeys(w) &&
            forall i :: 0 <= i < |w| ==> Text.StartsWith(w[i].key, ItemPrefix(name)) && Json.LoadsScalar(w[i].payload).Ok?
  {
    var p := ItemPrefix(name);
    var w := WithKeyPrefix(record, p);
    WithKeyPrefixUnique(record, p);
    forall i | 0 <= i < |w| ensures Json.LoadsScalar(w[i].payload).Ok? {
      var y := w[i].key[|p|..];
      assert w[i].key == p + y;
      UniqueLookup(w, i);
      DictItemLookup(record, name, entries, now, y);
    }
  }

  lemma DecodeDictBranch(record: seq<Field>, name: string)
    requires SakDbFields.GetByKey(record, TypeKey(name)).Some?
    requires SakDbFields.GetByKey(record, TypeKey(name)).value.payload == "dict"
    requires LoadEntries([], WithKeyPrefix(record, ItemPrefix(name))).Ok?
    ensures Decode(name, record) == Ok(DictOf(LoadEntries([], WithKeyPrefix(record, ItemPrefix(name))).value))
  {
  }

  lemma DecodeShowsDict(record: seq<Field>, name: string, entries: seq<(string, Json.Scalar)>, now: int)
    requires ':' !in name
    requires UniqueEntryKeys(entries)
    requires UniqueKeys(record)
    requires Shows(record, name, DictOf(entries), now)
    ensures Decode(name, record).Ok? && SameAttr(Decode(name, record).value, DictOf(entries))
    ensures Decode(name, record).value.DictOf? && UniqueEntryKeys(Decode(name, record).value.entries)
  {
    var w := WithKeyPrefix(record, ItemPrefix(name));
    ShowsType(record, name, DictOf(entries), now);
    DictItemsLoad(record, name, entries, now);
    LoadEntriesLookup([], name, w, "");
    DecodeDictBranch(record, name);
    var loaded := LoadEntries([], w).value;
    forall x ensures DictGet(loaded, x) == DictGet(entries, x) {
      LoadEntriesLookup([], name, w, x);
      DictItemLookup(record, name, entries, now, x);
    }
  }

  // ---------------------------------------------------------------- list order (see Findings)

  /** Loading item fields gives one value per field, in field order. */
  lemma {:induction false} LoadItemsAt(fields: seq<Field>, vs: seq<Json.Scalar>)
    requires LoadItems(fields) == Ok(vs)
    ensures forall i :: 0 <= i < |fields| ==> Json.LoadsScalar(fields[i].payload) == Ok(vs[i])
  {
    if fields != [] {
      LoadItemsAt(fields[1..], vs[1..]);
      forall i | 1 <= i < |fields| ensures Json.LoadsScalar(fields[i].payload) == Ok(vs[i]) {
        assert fields[1..][i - 1] == fields[i];
      }
    }
  }

  /** An item key present in a list's encoding is the key of some index, holding that item. */
  lemma EncodeListLookup(name: string, items: seq<Json.Scalar>, now: int, k: string)
    requires ':' !in name
    requires Text.StartsWith(k, ItemPrefix(name))
    requires SakDbFields.GetByKey(Encode(name, ListOf(items), now), k).Some?
    ensures exists j :: 0 <= j < |items| && k == ItemPrefix(name) + Json.NatText(j)
                        && SakDbFields.GetByKey(Encode(name, ListOf(items), now), k).value.payload == Json.ScalarText(items[j])
  {
    var enc := Encode(name, ListOf(items), now);
    var e := SakDbFields.GetByKey(enc, k).value;
    var j :| 0 <= j < |enc| && enc[j] == e && enc[j].key == k;
    TypeKeyApart(name);
    assert j > 0;
    EncodeListAt(name, items, now, j - 1);
  }

  /** A field a list-showing record holds under an item key is the encoding's field at some index. */
  lemma ListItemKey(record: seq<Field>, name: string, items: seq<Json.Scalar>, now: int, f: Field)
    requires ':' !in name
    requires Shows(record, name, ListOf(items), now)
    requires SakDbFields.GetByKey(record, f.key) == Some(f) && Text.StartsWith(f.key, ItemPrefix(name))
    ensures exists j :: 0 <= j < |items| && f.key == ItemPrefix(name) + Json.NatText(j)
                        && f.payload == Json.ScalarText(items[j])
  {
    assert AttrKey(name, ListOf(items), f.key);
    EncodeListLookup(name, items, now, f.key);
  }

  /** `list(range(n))`. */
  function Range(n: nat): (r: seq<Json.Scalar>)
    ensures |r| == n && forall i :: 0 <= i < n ==> r[i] == Json.JInt(i)
  {
    seq(n, i requires 0 <= i < n => Json.JInt(i))
  }

  /** Of `range(11)`, the field a record holds at position `i` of the item fields, when it loads to `i`. */
  lemma RangeItemKey(record: seq<Field>, name: string, now: int, i: nat)
    requires ':' !in name
    requires UniqueKeys(record)
    requires Shows(record, name, ListOf(Range(11)), now)
    requires i < |WithKeyPrefix(record, ItemPrefix(name))|
    requires Json.LoadsScalar(WithKeyPrefix(record, ItemPrefix(name))[i].payload) == Ok(Json.JInt(i))
    ensures WithKeyPrefix(record, ItemPrefix(name))[i].key == ItemPrefix(name) + Json.NatText(i)
  {
    var w := WithKeyPrefix(record, ItemPrefix(name));
    PrefixedMember(record, ItemPrefix(name), i);
    ListItemKey(record, name, Range(11), now, w[i]);
    var j :| 0 <= j < 11 && w[i].key == ItemPrefix(name) + Json.NatText(j) && w[i].payload == Json.ScalarText(Json.JInt(j));
    Json.LoadsScalarText(Json.JInt(j));
  }

  lemma {:induction false} LessCommonPrefix(p: string, x: string, y: string)
    ensures Text.Less(p + x, p + y) == Text.Less(x, y)
  {
    if p != [] {
      var a, b := p + x, p + y;
      assert a != [] && b != [] && a[0] == b[0];
      assert a[1..] == p[1..] + x && b[1..] == p[1..] + y;
      LessCommonPrefix(p[1..], x, y);
    } else {
      assert p + x == x && p + y == y;
    }
  }

  lemma TwoAfterTen()
    ensures !Text.Less(Json.NatText(2), Json.NatText(10))
  {
    assert Json.NatText(2) == ['2'];
    assert Json.NatText(10) == ['1', '0'];
  }

  /**
   * Items read back by index: the field `name:i` for each `i < n`; a missing
   * index is an error.
   */
  function IndexedItems(fields: seq<Field>, name: string, n: nat): (r: Result<seq<Json.Scalar>>)
    ensures r.Ok? ==> |r.value| == n
  {
    if n == 0 then Ok([])
    else
      match IndexedItems(fields, name, n - 1)
      case Fail(e) => Fail(e)
      case Ok(vs) =>
        match SakDbFields.GetByKey(fields, ItemPrefix(name) + Json.NatText(n - 1))
        case None => Fail(MissingEntry)
        case Some(f) =>
          match Json.LoadsScalar(f.payload)
          case Fail(e) => Fail(e)
          case Ok(v) => Ok(vs + [v])
  }

  /** `__getattribute__` with the list branch reading its items by index rather than in key order. */
  function DecodeIndexed(name: string, fields: seq<Field>): (r: Result<Attr>)
  {
    match SakDbFields.GetByKey(fields, TypeKey(name))
    case Some(t) =>
      if t.payload == "list" then
        match IndexedItems(fields, name, |WithKeyPrefix(fields, ItemPrefix(name))|)
        case Fail(e) => Fail(e)
        case Ok(items) => Ok(ListOf(items))
      else Decode(name, fields)
    case None => Decode(name, fields)
  }

  /** Every index below `|items|` has its item field, holding that item. */
  predicate ItemsAt(fields: seq<Field>, name: string, items: seq<Json.Scalar>) {
    forall i :: 0 <= i < |items| ==>
      SakDbFields.GetByKey(fields, ItemPrefix(name) + Json.NatText(i)).Some?
      && SakDbFields.GetByKey(fields, ItemPrefix(name) + Json.NatText(i)).value.payload == Json.ScalarText(items[i])
  }

  lemma IndexedItemsStep(fields: seq<Field>, name: string, items: seq<Json.Scalar>, n: nat)
    requires 0 < n <= |items|
    requires ItemsAt(fields, name, items)
    requires IndexedItems(fields, name, n - 1) == Ok(items[..n - 1])
    ensures IndexedItems(fields, name, n) == Ok(items[..n])
  {
    var f := SakDbFields.GetByKey(fields, ItemPrefix(name) + Json.NatText(n - 1)).value;
    Json.LoadsScalarText(items[n - 1]);
    IndexedItemsNext(fields, name, n, items[..n - 1], f, items[n - 1]);
    TakeLast(items, n);
  }

  lemma TakeLast(items: seq<Json.Scalar>, n: nat)
    requires 0 < n <= |items|
    ensures items[..n] == items[..n - 1] + [items[n - 1]]
  {
  }

  lemma IndexedItemsNext(fields: seq<Field>, name: string, n: nat, vs: seq<Json.Scalar>, f: Field, v: Json.Scalar)
    requires n > 0 && IndexedItems(fields, name, n - 1) == Ok(vs)
    requires SakDbFields.GetByKey(fields, ItemPrefix(name) + Json.NatText(n - 1)) == Some(f)
    requires Json.LoadsScalar(f.payload) == Ok(v)
    ensures IndexedItems(fields, name, n) == Ok(vs + [v])
  {
  }

  lemma {:induction false} IndexedItemsOf(fields: seq<Field>, name: string, items: seq<Json.Scalar>, n: nat)
    requires n <= |items|
    requires ItemsAt(fields, name, items)
    ensures IndexedItems(fields, name, n) == Ok(items[..n])
  {
    if n > 0 {
      IndexedItemsOf(fields, name, items, n - 1);
      IndexedItemsStep(fields, name, items, n);
    }
  }

  lemma ListItemsAt(record: seq<Field>, name: string, items: seq<Json.Scalar>, now: int)
    requires ':' !in name
    requires Shows(record, name, ListOf(items), now)
    ensures ItemsAt(record, name, items)
  {
    var enc := Encode(name, ListOf(items), now);
    var p := ItemPrefix(name);
    EncodeUnique(name, ListOf(items), now);
    forall i | 0 <= i < |items|
      ensures SakDbFields.GetByKey(record, p + Json.NatText(i)).Some?
              && SakDbFields.GetByKey(record, p + Json.NatText(i)).value.payload == Json.ScalarText(items[i])
    {
      EncodeListAt(name, items, now, i);
      UniqueLookup(enc, i + 1);
      PrefixedKey(p, Json.NatText(i), "");
      assert AttrKey(name, ListOf(items), p + Json.NatText(i));
    }
  }

  /** A list's item fields, as the prefix filter finds them in its encoding. */
  lemma EncodeListItems(name: string, items: seq<Json.Scalar>, now: int)
    requires ':' !in name
    ensures WithKeyPrefix(Encode(name, ListOf(items), now), ItemPrefix(name)) == ListFields(name, items, now)
  {
    var enc := Encode(name, ListOf(items), now);
    var fs := ListFields(name, items, now);
    TypeKeyApart(name);
    ListFieldsKeys(name, items, now);
    WithKeyPrefixAll(fs, ItemPrefix(name));
    assert enc == [enc[0]] + fs;
  }

  /** A list-showing record with distinct keys holds exactly as many item fields as the list has items. */
  lemma ListItemCount(record: seq<Field>, name: string, items: seq<Json.Scalar>, now: int)
    requires ':' !in name
    requires UniqueKeys(record)
    requires Shows(record, name, ListOf(items), now)
    ensures |WithKeyPrefix(record, ItemPrefix(name))| == |items|
  {
    var enc := Encode(name, ListOf(items), now);
    var p := ItemPrefix(name);
    var w := WithKeyPrefix(record, p);
    var fs := ListFields(name, items, now);
    EncodeListItems(name, items, now);
    ListFieldsKeys(name, items, now);
    WithKeyPrefixUnique(record, p);
    assert KeySet(w) == KeySet(fs) by {
      forall k ensures k in KeySet(w) <==> k in KeySet(fs) {
        KeySetLookup(w, k);
        KeySetLookup(fs, k);
        WithKeyPrefixLookup(record, p, k);
        WithKeyPrefixLookup(enc, p, k);
        if Text.StartsWith(k, p) {
          assert AttrKey(name, ListOf(items), k);
        }
      }
    }
    KeySetSize(w);
    KeySetSize(fs);
  }

  lemma DecodeIndexedBranch(record: seq<Field>, name: string, items: seq<Json.Scalar>)
    requires SakDbFields.GetByKey(record, TypeKey(name)).Some?
    requires SakDbFields.GetByKey(record, TypeKey(name)).value.payload == "list"
    requires IndexedItems(record, name, |WithKeyPrefix(record, ItemPrefix(name))|) == Ok(items)
    ensures DecodeIndexed(name, record) == Ok(ListOf(items))
  {
  }

  lemma DecodeIndexedList(record: seq<Field>, name: string, items: seq<Json.Scalar>, now: int)
    requires ':' !in name
    requires UniqueKeys(record)
    requires Shows(record, name, ListOf(items), now)
    ensures DecodeIndexed(name, record) == Ok(ListOf(items))
  {
    ShowsType(record, name, ListOf(items), now);
    ListItemCount(record, name, items, now);
    ListItemsAt(record, name, items, now);
    IndexedItemsOf(record, name, items, |items|);
    assert items[..|items|] == items;
    DecodeIndexedBranch(record, name, items);
  }

  /**
   * What a record that shows an attribute reads back as, once list items are
   * read by index: the value assigned.
   */
  lemma DecodeIndexedShows(record: seq<Field>, name: string, a: Attr, now: int)
    requires ':' !in name
    requires a.DictOf? ==> UniqueEntryKeys(a.entries)
    requires UniqueKeys(record)
    requires Shows(record, name, a, now)
    ensures DecodeIndexed(name, record).Ok? && SameAttr(DecodeIndexed(name, record).value, a)
  {
    ShowsType(record, name, a, now);
    match a
    case Scalar(v) =>
      TypeNames(v);
      DecodeShowsScalar(record, name, v, now);
    case ListOf(items) =>
      DecodeIndexedList(record, name, items, now);
    case DictOf(entries) =>
      DecodeShowsDict(record, name, entries, now);
  }

  /**
   * `obj.l = list(range(11))` on an object whose record already exists: the
   * merged record holds the items in key order, `l:10` before `l:2`, and the
   * list branch of `__getattribute__` returns them in that order; read by
   * index they come back as assigned.
   */
  lemma ListOrderLost(previous: seq<Field>, name: string, now: int)
    requires ':' !in name
    ensures var r := UpdateMeta(Some(previous), name, ListOf(Range(11)), now);
            Decode(name, r) != Ok(ListOf(Range(11))) && DecodeIndexed(name, r) == Ok(ListOf(Range(11)))
  {
    var a := ListOf(Range(11));
    var r := UpdateMeta(Some(previous), name, a, now);
    UpdateMetaShows(Some(previous), name, a, now);
    DecodeIndexedList(r, name, Range(11), now);
    DecodedInKeyOrder(previous, name, now);
    LessCommonPrefix(ItemPrefix(name), Json.NatText(2), Json.NatText(10));
    TwoAfterTen();
  }

  /** Were the eleven items to come back in place, the key `l:2` would sort before `l:10`. */
  lemma DecodedInKeyOrder(previous: seq<Field>, name: string, now: int)
    requires ':' !in name
    ensures var r := UpdateMeta(Some(previous), name, ListOf(Range(11)), now);
            Decode(name, r) == Ok(ListOf(Range(11))) ==>
              Text.Less(ItemPrefix(name) + Json.NatText(2), ItemPrefix(name) + Json.NatText(10))
  {
    var a := ListOf(Range(11));
    var r := UpdateMeta(Some(previous), name, a, now);
    var p := ItemPrefix(name);
    UpdateMetaShows(Some(previous), name, a, now);
    if Decode(name, r) == Ok(a) {
      ShowsType(r, name, a, now);
      var w := WithKeyPrefix(r, p);
      assert LoadItems(w) == Ok(Range(11));
      LoadItemsAt(w, Range(11));
      RangeItemKey(r, name, now, 2);
      RangeItemKey(r, name, now, 10);
      WithKeyPrefixSorted(r, p);
      assert Text.Less(w[2].key, w[10].key);
    }
  }

  // ---------------------------------------------------------------- list order as written

  /** The item fields come in index order: the one at position `i` is `name:i`. */
  predicate ItemsInIndexOrder(record: seq<Field>, name: string) {
    var w := WithKeyPrefix(record, ItemPrefix(name));
    forall i :: 0 <= i < |w| ==> w[i].key == ItemPrefix(name) + Json.NatText(i)
  }

  /** A list-showing record whose item fields come in index order reads back, in field order, as the list. */
  lemma DecodeListInOrder(record: seq<Field>, name: string, items: seq<Json.Scalar>, now: int)
    requires ':' !in name
    requires UniqueKeys(record)
    requires Shows(record, name, ListOf(items), now)
    requires ItemsInIndexOrder(record, name)
    ensures Decode(name, record) == Ok(ListOf(items))
  {
    var p := ItemPrefix(name);
    var w := WithKeyPrefix(record, p);
    ShowsType(record, name, ListOf(items), now);
    ListItemCount(record, name, items, now);
    ListItemsAt(record, name, items, now);
    forall i | 0 <= i < |w| ensures w[i].payload == Json.ScalarText(items[i]) {
      PrefixedMember(record, p, i);
    }
    LoadItemsOf(w, items);
    DecodeListBranch(record, name, SakDbFields.GetByKey(record, TypeKey(name)).value, items);
  }

  /** The number a one-digit item key carries after the prefix, -1 when there is none. */
  function DigitAt(k: string, at: nat): int {
    if at < |k| then k[at] as int - '0' as int else -1
  }

  lemma DigitKey(p: string, j: nat)
    requires j < 10
    ensures DigitAt(p + Json.NatText(j), |p|) == j
  {
    assert Json.NatText(j) == [Json.Digit(j)];
    assert (p + Json.NatText(j))[|p|] == Json.Digit(j);
  }

  /** Between one-digit indices, key order is index order. */
  lemma DigitKeyLess(p: string, i: nat, j: nat)
    requires i < 10 && j < 10
    ensures Text.Less(p + Json.NatText(i), p + Json.NatText(j)) <==> i < j
  {
    LessCommonPrefix(p, Json.NatText(i), Json.NatText(j));
    assert Json.NatText(i) == [Json.Digit(i)] && Json.NatText(j) == [Json.Digit(j)];
  }

  predicate Ascending(js: seq<int>) {
    forall i, j :: 0 <= i < j < |js| ==> js[i] < js[j]
  }

  lemma {:induction false} AscendingFloor(js: seq<int>, i: nat)
    requires Ascending(js) && i < |js|
    requires forall k :: 0 <= k < |js| ==> 0 <= js[k]
    ensures i <= js[i]
  {
    if i > 0 {
      AscendingFloor(js, i - 1);
    }
  }

  lemma {:induction false} AscendingCeiling(js: seq<int>, i: nat)
    requires Ascending(js) && i < |js|
    requires forall k :: 0 <= k < |js| ==> js[k] < |js|
    ensures js[i] <= i
    decreases |js| - i
  {
    if i + 1 < |js| {
      AscendingCeiling(js, i + 1);
    }
  }

  /** An item field of a record showing a list of at most ten items is `name:d` for a digit `d` below the length. */
  lemma ShortItemKey(record: seq<Field>, name: string, items: seq<Json.Scalar>, now: int, i: nat)
    requires ':' !in name
    requires UniqueKeys(record)
    requires Shows(record, name, ListOf(items), now)
    requires |items| <= 10
    requires i < |WithKeyPrefix(record, ItemPrefix(name))|
    ensures var k := WithKeyPrefix(record, ItemPrefix(name))[i].key;
            0 <= DigitAt(k, |ItemPrefix(name)|) < |items| && k == ItemPrefix(name) + Json.NatText(DigitAt(k, |ItemPrefix(name)|))
  {
    var w := WithKeyPrefix(record, ItemPrefix(name));
    PrefixedMember(record, ItemPrefix(name), i);
    ListItemKey(record, name, items, now, w[i]);
    var j :| 0 <= j < |items| && w[i].key == ItemPrefix(name) + Json.NatText(j) && w[i].payload == Json.ScalarText(items[j]);
    DigitKey(ItemPrefix(name), j);
  }

  /**
   * In a record with ascending keys that shows a list of at most ten items,
   * the item fields come in index order: `name:0` to `name:9` sort as their
   * digits do.
   */
  lemma ShortListInOrder(record: seq<Field>, name: string, items: seq<Json.Scalar>, now: int)
    requires ':' !in name
    requires UniqueKeys(record) && SakDbFields.KeysStrictlySorted(record)
    requires Shows(record, name, ListOf(items), now)
    requires |items| <= 10
    ensures ItemsInIndexOrder(record, name)
  {
    var p := ItemPrefix(name);
    var w := WithKeyPrefix(record, p);
    ListItemCount(record, name, items, now);
    WithKeyPrefixSorted(record, p);
    var js := seq(|w|, i requires 0 <= i < |w| => DigitAt(w[i].key, |p|));
    forall i | 0 <= i < |w| ensures 0 <= js[i] < |w| && w[i].key == p + Json.NatText(js[i]) {
      ShortItemKey(record, name, items, now, i);
    }
    forall i, j | 0 <= i < j < |w| ensures js[i] < js[j] {
      assert Text.Less(w[i].key, w[j].key);
      DigitKeyLess(p, js[i], js[j]);
    }
    forall i | 0 <= i < |w| ensures w[i].key == p + Json.NatText(i) {
      AscendingFloor(js, i);
      AscendingCeiling(js, i);
    }
  }

  /** The encoding of a list alone holds its item fields in index order, however many. */
  lemma EncodeListInOrder(name: string, items: seq<Json.Scalar>, now: int)
    requires ':' !in name
    ensures ItemsInIndexOrder(Encode(name, ListOf(items), now), name)
  {
    EncodeListItems(name, items, now);
  }

  /**
   * A record that shows an attribute, with list items in index order,
   * decodes as written to that attribute.
   */
  lemma DecodeShows(record: seq<Field>, name: string, a: Attr, now: int)
    requires ':' !in name
    requires a.DictOf? ==> UniqueEntryKeys(a.entries)
    requires UniqueKeys(record)
    requires Shows(record, name, a, now)
    requires a.ListOf? ==> ItemsInIndexOrder(record, name)
    ensures Decode(name, record).Ok? && SameAttr(Decode(name, record).value, a)
  {
    match a
    case Scalar(v) =>
      DecodeShowsScalar(record, name, v, now);
    case ListOf(items) =>
      DecodeListInOrder(record, name, items, now);
    case DictOf(entries) =>
      DecodeShowsDict(record, name, entries, now);
  }

  // ---------------------------------------------------------------- an assignment, end to end

  /**
   * The record staged at an object's "meta" path once `__setattr__` is done,
   * given what the session staged there and, when nothing was, what the
   * backend held. The read hands back the staged record itself, so the two
   * drops cut it in place before the write lands on it.
   */
  function SetAttrRecord(staged: Option<seq<Field>>, loaded: Option<seq<Field>>, name: string, a: Attr, now: int): seq<Field>
  {
    match staged
    case Some(s) => StagedWrite(Some(DropAttr(s, name)), UpdateMeta(Some(s), name, a, now))
    case None => StagedWrite(None, UpdateMeta(loaded, name, a, now))
  }

  /** The record staged by an assignment shows the value, with distinct keys; ascending ones unless nothing was there before. */
  lemma SetAttrRecordShows(staged: Option<seq<Field>>, loaded: Option<seq<Field>>, name: string, a: Attr, now: int)
    requires ':' !in name
    requires a.DictOf? ==> UniqueEntryKeys(a.entries)
    requires staged.Some? ==> UniqueKeys(staged.value) && NameFieldOlder(staged.value, name, a, now)
    requires staged.None? && loaded.Some? ==> NameFieldOlder(loaded.value, name, a, now)
    ensures var r := SetAttrRecord(staged, loaded, name, a, now);
            Shows(r, name, a, now) && UniqueKeys(r)
            && (staged.Some? || loaded.Some? ==> SakDbFields.KeysStrictlySorted(r))
            && (staged.None? && loaded.None? ==> r == Encode(name, a, now))
  {
    match staged
    case Some(s) =>
      StagedShows(s, name, a, now);
    case None =>
      var m := UpdateMeta(loaded, name, a, now);
      SakDbFields.MergeCases(None, Some(m), None);
      UpdateMetaShows(loaded, name, a, now);
  }

  /**
   * An assignment reads back through the session, as `__getattribute__` is
   * written, as the value assigned: a scalar or a dict always, a list when
   * its items sort by key as by index, that is when it has at most ten items
   * or the record was first written by this assignment.
   */
  lemma SetAttrReadBack(staged: Option<seq<Field>>, loaded: Option<seq<Field>>, name: string, a: Attr, now: int)
    requires ':' !in name
    requires a.DictOf? ==> UniqueEntryKeys(a.entries)
    requires staged.Some? ==> UniqueKeys(staged.value) && NameFieldOlder(staged.value, name, a, now)
    requires staged.None? && loaded.Some? ==> NameFieldOlder(loaded.value, name, a, now)
    ensures var r := SetAttrRecord(staged, loaded, name, a, now);
            UniqueKeys(r)
            && ((a.ListOf? && |a.items| > 10 && (staged.Some? || loaded.Some?))
                || (Decode(name, r).Ok? && SameAttr(Decode(name, r).value, a)))
  {
    var r := SetAttrRecord(staged, loaded, name, a, now);
    SetAttrRecordShows(staged, loaded, name, a, now);
    if a.ListOf? {
      if staged.None? && loaded.None? {
        EncodeListInOrder(name, a.items, now);
        DecodeShows(r, name, a, now);
      } else if |a.items| <= 10 {
        ShortListInOrder(r, name, a.items, now);
        DecodeShows(r, name, a, now);
      }
    } else {
      DecodeShows(r, name, a, now);
    }
  }

  /** With list items read by index, an assignment of any value reads back as the value assigned. */
  lemma SetAttrReadBackIndexed(staged: Option<seq<Field>>, loaded: Option<seq<Field>>, name: string, a: Attr, now: int)
    requires ':' !in name
    requires a.DictOf? ==> UniqueEntryKeys(a.entries)
    requires staged.Some? ==> UniqueKeys(staged.value) && NameFieldOlder(staged.value, name, a, now)
    requires staged.None? && loaded.Some? ==> NameFieldOlder(loaded.value, name, a, now)
    ensures var r := SetAttrRecord(staged, loaded, name, a, now);
            UniqueKeys(r) && DecodeIndexed(name, r).Ok? && SameAttr(DecodeIndexed(name, r).value, a)
  {
    var r := SetAttrRecord(staged, loaded, name, a, now);
    SetAttrRecordShows(staged, loaded, name, a, now);
    DecodeIndexedShows(r, name, a, now);
  }

  // ---------------------------------------------------------------- metadata

  /** The record `set_metadata` writes: the value's type under "_type", its JSON text under the key. */
  function MetadataFields(key: string, v: Json.Scalar, now: int): (r: seq<Field>)
    ensures |r| == 2 && r[0].key == "_type" && r[1].key == key
  {
    [SakDbFields.NewField(TypeName(v), now, "_type", None), SakDbFields.NewField(Json.ScalarText(v), now, key, None)]
  }

  /**
   * `get_metadata` after `set_metadata` in the same session: the entry's field
   * holds the value written, when an entry staged before is older and has no
   * digest collision with it.
   */
  lemma MetadataKeyField(key: string, v: Json.Scalar, now: int)
    requires key != "_type"
    ensures var f := SakDbFields.GetByKey(MetadataFields(key, v, now), key);
            f.Some? && f.value.ts == now && f.value.payload == Json.ScalarText(v)
            && f.value.crc == SakDbFields.PayloadMd5(Json.ScalarText(v))
  {
    SakDbFields.GetByKeyAt(MetadataFields(key, v, now), 1);
  }

  lemma MetadataReadBack(staged: Option<seq<Field>>, key: string, v: Json.Scalar, now: int)
    requires key != "_type"
    requires staged.Some? ==> UniqueKeys(staged.value) && NameFieldOlder(staged.value, key, Scalar(v), now)
    ensures var f := SakDbFields.GetByKey(StagedWrite(staged, MetadataFields(key, v, now)), key);
            f.Some? && Json.LoadsScalar(f.value.payload) == Ok(v)
  {
    MetadataPayload(staged, key, v, now);
    Json.LoadsScalarText(v);
  }

  lemma MetadataPayload(staged: Option<seq<Field>>, key: string, v: Json.Scalar, now: int)
    requires key != "_type"
    requires staged.Some? ==> UniqueKeys(staged.value) && NameFieldOlder(staged.value, key, Scalar(v), now)
    ensures var f := SakDbFields.GetByKey(StagedWrite(staged, MetadataFields(key, v, now)), key);
            f.Some? && f.value.payload == Json.ScalarText(v)
  {
    MetadataKeyField(key, v, now);
    StagedFieldWins(staged, MetadataFields(key, v, now), MetadataFields(key, v, now)[1]);
  }


  /** What `FieldOlder` says of the first field with the key. */
  lemma OlderField(fields: seq<Field>, key: string, payload: string, now: int)
    requires FieldOlder(fields, key, payload, now)
    ensures var w := SakDbFields.GetByKey(fields, key);
            w.Some? ==> w.value.ts < now && (w.value.crc == SakDbFields.PayloadMd5(payload) ==> w.value.payload == payload)
  {
    var w := SakDbFields.GetByKey(fields, key);
    if w.Some? {
      var i :| 0 <= i < |fields| && fields[i] == w.value && fields[i].key == key;
    }
  }

  /**
   * A new field with a fresh digest, written over a staged record whose
   * fields under its key are older, is what the key reads back as.
   */
  lemma StagedFieldWins(staged: Option<seq<Field>>, value: seq<Field>, f: Field)
    requires SakDbFields.GetByKey(value, f.key) == Some(f)
    requires f.crc == SakDbFields.PayloadMd5(f.payload)
    requires staged.Some? ==> UniqueKeys(staged.value) && FieldOlder(staged.value, f.key, f.payload, f.ts)
    ensures var g := SakDbFields.GetByKey(StagedWrite(staged, value), f.key);
            g.Some? && g.value.payload == f.payload
  {
    StagedWriteLookup(staged, value, f.key);
    if staged.Some? {
      OlderField(staged.value, f.key, f.payload, f.ts);
    }
  }



}

/**
 * The field-record layer: a record is an ordered list of fields
 * `(ts, key, crc, payload)`.  It is written one line per field, a compact JSON
 * header, the separator '&', then the JSON-encoded payload, and two versions
 * of a record are reconciled key by key, the newer field winning.
 */
module SakDbFields {
  import opened Wrappers
  import Text
  import Json

  /** PAYLOAD_SEPARATOR. */
  const PayloadSeparator: char := '&'

  // ------------------------------------------------------------ payload_md5

  predicate IsLowerHex(c: char) {
    '0' <= c <= '9' || 'a' <= c <= 'f'
  }

  /** The lower-case hex digit of a value below 16. */
  function HexDigit(n: nat): (c: char)
    requires n < 16
    ensures IsLowerHex(c)
  {
    if n < 10 then ('0' as int + n) as char else ('a' as int + n - 10) as char
  }

  /** Two lower-case hex digits for a byte value. */
  function HexByte(n: nat): (r: string)
    requires n < 256
    ensures |r| == 2 && IsLowerHex(r[0]) && IsLowerHex(r[1])
  {
    [HexDigit(n / 16), HexDigit(n % 16)]
  }

  /** Every character's code is below 256, as in the ASCII text `ensure_ascii` produces. */
  predicate ByteChars(s: string) {
    forall i :: 0 <= i < |s| ==> s[i] as int < 256
  }

  /** The first `width` characters as two hex digits each (a code from 256 up as "00"), padded with "00". */
  function HexCodes(s: string, width: nat): (r: string)
    ensures |r| == 2 * width && forall i :: 0 <= i < |r| ==> IsLowerHex(r[i])
  {
    if width == 0 then ""
    else
      var head := if s == [] || s[0] as int >= 256 then "00" else HexByte(s[0] as int);
      var tail := HexCodes(if s == [] then s else s[1..], width - 1);
      assert forall i :: 2 <= i < |head + tail| ==> (head + tail)[i] == tail[i - 2];
      head + tail
  }

  /**
   * Stands in for the hex digest of the payload's MD5: the payload's length
   * (capped at 255) as one byte, then its first fifteen characters, two hex
   * digits each.  Like MD5 it is deterministic and 32 lower-case hex digits
   * long; unlike MD5 it tells payloads apart only up to fifteen characters
   * (`PayloadMd5Injective`).
   */
  function PayloadMd5(payload: string): (r: string)
    ensures |r| == 36 && r[..4] == "md5:"
    ensures forall i :: 4 <= i < |r| ==> IsLowerHex(r[i])
    ensures PayloadSeparator !in r
  {
    var h := HexByte(if |payload| < 255 then |payload| else 255) + HexCodes(payload, 15);
    var r := "md5:" + h;
    assert forall i :: 4 <= i < |r| ==> r[i] == h[i - 4];
    r
  }

  lemma HexByteInjective(m: nat, n: nat)
    requires m < 256 && n < 256
    ensures HexByte(m) == HexByte(n) <==> m == n
  {
    if HexByte(m) == HexByte(n) {
      assert HexDigit(m / 16) == HexDigit(n / 16) && HexDigit(m % 16) == HexDigit(n % 16);
    }
  }

  /** Concatenations with equal-length heads are equal only when heads and tails are. */
  lemma ConcatSplit(x1: string, y1: string, x2: string, y2: string)
    requires |x1| == |x2| && x1 + y1 == x2 + y2
    ensures x1 == x2 && y1 == y2
  {
    assert x1 == (x1 + y1)[..|x1|] && x2 == (x2 + y2)[..|x2|];
    assert y1 == (x1 + y1)[|x1|..] && y2 == (x2 + y2)[|x2|..];
  }

  lemma HexCodesCons(s: string, width: nat)
    requires s != [] && s[0] as int < 256 && width > 0
    ensures HexCodes(s, width) == HexByte(s[0] as int) + HexCodes(s[1..], width - 1)
  {
  }

  lemma ByteCharsTail(s: string)
    requires s != [] && ByteChars(s)
    ensures ByteChars(s[1..])
  {
    assert forall i :: 0 <= i < |s| - 1 ==> s[1..][i] == s[i + 1];
  }

  /** Equal codes of two byte strings start with equal characters and go on with equal codes. */
  lemma HexCodesHead(a: string, b: string, width: nat)
    requires a != [] && b != [] && width > 0 && ByteChars(a) && ByteChars(b)
    requires HexCodes(a, width) == HexCodes(b, width)
    ensures a[0] == b[0] && HexCodes(a[1..], width - 1) == HexCodes(b[1..], width - 1)
  {
    var x, y := a[0] as int, b[0] as int;
    assert x < 256 && y < 256;
    HexCodesCons(a, width);
    HexCodesCons(b, width);
    ConcatSplit(HexByte(x), HexCodes(a[1..], width - 1), HexByte(y), HexCodes(b[1..], width - 1));
    HexByteInjective(x, y);
  }

  lemma {:induction false} HexCodesInjective(a: string, b: string, width: nat)
    requires |a| == |b| <= width && ByteChars(a) && ByteChars(b)
    requires HexCodes(a, width) == HexCodes(b, width)
    ensures a == b
  {
    if a != [] {
      HexCodesHead(a, b, width);
      ByteCharsTail(a);
      ByteCharsTail(b);
      HexCodesInjective(a[1..], b[1..], width - 1);
      assert a == [a[0]] + a[1..] && b == [b[0]] + b[1..];
    }
  }

  /**
   * Payloads of at most fifteen characters below code 256, as short JSON
   * texts are, get equal digests exactly when they are equal.
   */
  lemma PayloadMd5Injective(a: string, b: string)
    requires |a| <= 15 && |b| <= 15 && ByteChars(a) && ByteChars(b)
    ensures PayloadMd5(a) == PayloadMd5(b) <==> a == b
  {
    if PayloadMd5(a) == PayloadMd5(b) {
      ConcatSplit("md5:", HexByte(|a|) + HexCodes(a, 15), "md5:", HexByte(|b|) + HexCodes(b, 15));
      ConcatSplit(HexByte(|a|), HexCodes(a, 15), HexByte(|b|), HexCodes(b, 15));
      HexByteInjective(|a|, |b|);
      HexCodesInjective(a, b, 15);
    }
  }

  // ------------------------------------------------------------ SakDbField

  datatype Field = Field(ts: int, key: string, crc: string, payload: string)

  /**
   * `SakDbField(payload, ts, key, crc)`, with the clock reading and the fresh
   * uuid the constructor would take passed in as `ts` and `key`.
   */
  function NewField(payload: string, ts: int, key: string, crc: Option<string>): (f: Field)
    ensures f.payload == payload && f.ts == ts && f.key == key
    ensures crc.Some? ==> f.crc == crc.value
    ensures crc.None? ==> f.crc == PayloadMd5(payload)
  {
    Field(ts, key, if crc.Some? then crc.value else PayloadMd5(payload), payload)
  }

  /** Two fields built from the same payload without a crc carry the same crc. */
  lemma DefaultCrcDeterministic(payload: string, ts1: int, key1: string, ts2: int, key2: string)
    ensures NewField(payload, ts1, key1, None).crc == NewField(payload, ts2, key2, None).crc
  {
  }

  // ------------------------------------------------------------ SakDbFields

  /** Index of the first field at or after `k` with the given key, none occurring before `k`. */
  function KeyIndexFrom(fields: seq<Field>, key: string, k: nat): (r: Option<nat>)
    requires k <= |fields|
    requires forall j :: 0 <= j < k ==> fields[j].key != key
    ensures r.Some? ==> r.value < |fields| && fields[r.value].key == key
    ensures r.Some? ==> forall j :: 0 <= j < r.value ==> fields[j].key != key
    ensures r.None? ==> forall j :: 0 <= j < |fields| ==> fields[j].key != key
    decreases |fields| - k
  {
    if k == |fields| then None
    else if fields[k].key == key then Some(k)
    else KeyIndexFrom(fields, key, k + 1)
  }

  /** `get_by_key`: the first field with the key, none when no field has it. */
  function GetByKey(fields: seq<Field>, key: string): (r: Option<Field>)
    ensures r.None? <==> forall i :: 0 <= i < |fields| ==> fields[i].key != key
    ensures r.Some? ==> exists i :: 0 <= i < |fields| && fields[i] == r.value && fields[i].key == key
                                  && forall j :: 0 <= j < i ==> fields[j].key != key
  {
    match KeyIndexFrom(fields, key, 0)
    case None => None
    case Some(i) => Some(fields[i])
  }

  /** The first field with a key is the one `get_by_key` returns. */
  lemma GetByKeyAt(fields: seq<Field>, i: nat)
    requires i < |fields|
    requires forall j :: 0 <= j < i ==> fields[j].key != fields[i].key
    ensures GetByKey(fields, fields[i].key) == Some(fields[i])
  {
  }

  /** `get_keys`: the keys in field order. */
  function GetKeys(fields: seq<Field>): (r: seq<string>)
    ensures |r| == |fields| && forall i :: 0 <= i < |fields| ==> r[i] == fields[i].key
    ensures forall k :: k in r <==> GetByKey(fields, k).Some?
  {
    seq(|fields|, i requires 0 <= i < |fields| => fields[i].key)
  }

  /** The fields whose key does not start with `prefix`, in their original order. */
  function WithoutKeyPrefix(fields: seq<Field>, prefix: string): (r: seq<Field>)
    ensures |r| <= |fields|
  {
    if fields == [] then []
    else (if Text.StartsWith(fields[0].key, prefix) then [] else [fields[0]])
         + WithoutKeyPrefix(fields[1..], prefix)
  }

  lemma {:induction false} WithoutKeyPrefixAppend(a: seq<Field>, b: seq<Field>, prefix: string)
    ensures WithoutKeyPrefix(a + b, prefix) == WithoutKeyPrefix(a, prefix) + WithoutKeyPrefix(b, prefix)
  {
    if a == [] {
      assert a + b == b;
    } else {
      assert (a + b)[0] == a[0];
      assert (a + b)[1..] == a[1..] + b;
      WithoutKeyPrefixAppend(a[1..], b, prefix);
    }
  }

  /** Dropping keeps exactly the fields whose key lacks the prefix. */
  lemma {:induction false} WithoutKeyPrefixMembers(fields: seq<Field>, prefix: string)
    ensures forall f :: f in WithoutKeyPrefix(fields, prefix) <==> f in fields && !Text.StartsWith(f.key, prefix)
  {
    if fields != [] {
      WithoutKeyPrefixMembers(fields[1..], prefix);
      assert fields == [fields[0]] + fields[1..];
    }
  }

  /** Nothing whose key lacks the prefix is dropped, so such a record is left as it is. */
  lemma {:induction false} WithoutKeyPrefixKeeps(fields: seq<Field>, prefix: string)
    requires forall i :: 0 <= i < |fields| ==> !Text.StartsWith(fields[i].key, prefix)
    ensures WithoutKeyPrefix(fields, prefix) == fields
  {
    if fields != [] {
      WithoutKeyPrefixKeeps(fields[1..], prefix);
      assert fields == [fields[0]] + fields[1..];
    }
  }

  /** Dropping a prefix twice is dropping it once. */
  lemma WithoutKeyPrefixIdempotent(fields: seq<Field>, prefix: string)
    ensures WithoutKeyPrefix(WithoutKeyPrefix(fields, prefix), prefix) == WithoutKeyPrefix(fields, prefix)
  {
    var r := WithoutKeyPrefix(fields, prefix);
    WithoutKeyPrefixMembers(fields, prefix);
    assert forall i :: 0 <= i < |r| ==> r[i] in r;
    WithoutKeyPrefixKeeps(r, prefix);
  }

  /** A `SakDbFields` object: the list of fields that `drop_by_key_prefix` replaces. */
  class Fields {
    var fields: seq<Field>

    constructor(fields: seq<Field>)
      ensures this.fields == fields
    {
      this.fields := fields;
    }

    /** `drop_by_key_prefix`: keeps the fields whose key does not start with the prefix. */
    method DropByKeyPrefix(prefix: string)
      modifies this
      ensures fields == WithoutKeyPrefix(old(fields), prefix)
    {
      var all := fields;
      var kept: seq<Field> := [];
      var i := 0;
      while i < |all|
        invariant 0 <= i <= |all|
        invariant kept == WithoutKeyPrefix(all[..i], prefix)
      {
        var f := all[i];
        WithoutKeyPrefixAppend(all[..i], [f], prefix);
        assert all[..i + 1] == all[..i] + [f];
        if !Text.StartsWith(f.key, prefix) {
          kept := kept + [f];
        }
        i := i + 1;
      }
      assert all[..i] == all;
      fields := kept;
    }
  }

  // ------------------------------------------------------------ sorted keys

  predicate StrictlySorted(s: seq<string>) {
    forall i, j :: 0 <= i < j < |s| ==> Text.Less(s[i], s[j])
  }

  /** Inserts `x` into a strictly sorted list unless it is there already. */
  function Insert(x: string, s: seq<string>): (r: seq<string>)
    requires StrictlySorted(s)
    ensures StrictlySorted(r)
    ensures forall y :: y in r <==> y in s || y == x
  {
    if s == [] then [x]
    else if x == s[0] then s
    else if Text.Less(x, s[0]) then
      assert forall j :: 0 <= j < |s| ==> Text.Less(x, s[j]) by {
        forall j | 0 <= j < |s| ensures Text.Less(x, s[j]) {
          if j > 0 { Text.LessTransitive(x, s[0], s[j]); }
        }
      }
      [x] + s
    else
      var t := Insert(x, s[1..]);
      assert Text.Less(s[0], x) by { Text.LessTotal(x, s[0]); }
      assert forall j :: 0 <= j < |t| ==> Text.Less(s[0], t[j]) by {
        forall j | 0 <= j < |t| ensures Text.Less(s[0], t[j]) {
          assert t[j] in t;
          if t[j] != x {
            var k :| 0 <= k < |s[1..]| && s[1..][k] == t[j];
            assert s[k + 1] == t[j];
          }
        }
      }
      [s[0]] + t
  }

  /** `sorted(set(xs))`: the distinct keys, each once, in ascending order. */
  function SortedUnique(xs: seq<string>): (r: seq<string>)
    ensures StrictlySorted(r)
    ensures forall y :: y in r <==> y in xs
  {
    if xs == [] then []
    else
      var r := Insert(xs[|xs| - 1], SortedUnique(xs[..|xs| - 1]));
      assert forall y :: y in xs <==> y in xs[..|xs| - 1] || y == xs[|xs| - 1] by {
        assert xs == xs[..|xs| - 1] + [xs[|xs| - 1]];
      }
      r
  }

  /** A strictly sorted list is determined by its elements. */
  lemma {:induction false} StrictlySortedUnique(a: seq<string>, b: seq<string>)
    requires StrictlySorted(a) && StrictlySorted(b)
    requires forall y :: y in a <==> y in b
    ensures a == b
  {
    if a != [] {
      assert a[0] in b;
    }
    if b != [] {
      assert b[0] in a;
    }
    if a != [] && b != [] {
      var i :| 0 <= i < |a| && a[i] == b[0];
      var j :| 0 <= j < |b| && b[j] == a[0];
      Text.LessAsymmetric(a[0], b[0]);
      assert a[0] == b[0];
      forall y ensures y in a[1..] <==> y in b[1..] {
        if y in a[1..] {
          var i :| 0 <= i < |a[1..]| && a[1..][i] == y;
          assert Text.Less(a[0], y);
          Text.LessIrreflexive(y);
          assert y in b;
          assert y != b[0];
          var j :| 0 <= j < |b| && b[j] == y;
          assert j > 0 && b[1..][j - 1] == y;
        }
        if y in b[1..] {
          var j :| 0 <= j < |b[1..]| && b[1..][j] == y;
          assert Text.Less(b[0], y);
          Text.LessIrreflexive(y);
          assert y in a;
          var i :| 0 <= i < |a| && a[i] == y;
          assert i > 0 && a[1..][i - 1] == y;
        }
      }
      StrictlySortedUnique(a[1..], b[1..]);
      assert a == [a[0]] + a[1..] && b == [b[0]] + b[1..];
    }
  }

  // ------------------------------------------------------------ merge

  /**
   * Per-key last-writer-wins: the field of the side that has the key; of two,
   * ours only when its timestamp is strictly newer, theirs otherwise.
   */
  function Winner(o: Option<Field>, t: Option<Field>): (w: Option<Field>)
    ensures w.None? <==> o.None? && t.None?
    ensures w.Some? ==> w == o || w == t
  {
    match o
    case None => t
    case Some(a) =>
      match t
      case None => o
      case Some(b) => if a.ts > b.ts then o else t
  }

  function Pick(ours: seq<Field>, theirs: seq<Field>, key: string): (f: Field)
    requires GetByKey(ours, key).Some? || GetByKey(theirs, key).Some?
    ensures f.key == key
  {
    Winner(GetByKey(ours, key), GetByKey(theirs, key)).value
  }

  /** The two-sided branch of `merge`: one field per key of the union, in ascending key order. */
  function MergeBoth(ours: seq<Field>, theirs: seq<Field>): (r: seq<Field>)
  {
    var keys := SortedUnique(GetKeys(ours) + GetKeys(theirs));
    seq(|keys|, i requires 0 <= i < |keys| =>
      assert keys[i] in GetKeys(ours) + GetKeys(theirs);
      Pick(ours, theirs, keys[i]))
  }

  /** `merge(base, ours, theirs)`, a missing record being None. */
  function Merge(base: Option<seq<Field>>, ours: Option<seq<Field>>, theirs: Option<seq<Field>>): (r: seq<Field>)
  {
    // A SakDbFields object is always truthy, so the branch with a base and the
    // branch without one do the same thing when both sides are present.
    if ours.Some? && theirs.Some? then MergeBoth(ours.value, theirs.value)
    else if base.None? && ours.Some? then ours.value
    else if base.None? && theirs.Some? then theirs.value
    else []
  }

  predicate KeysStrictlySorted(fields: seq<Field>) {
    forall i, j :: 0 <= i < j < |fields| ==> Text.Less(fields[i].key, fields[j].key)
  }

  /** The merged record lists its keys once each, ascending, and they are the union of both sides' keys. */
  lemma MergeBothKeys(ours: seq<Field>, theirs: seq<Field>)
    ensures var r := MergeBoth(ours, theirs);
            KeysStrictlySorted(r)
            && forall k :: GetByKey(r, k).Some? <==> GetByKey(ours, k).Some? || GetByKey(theirs, k).Some?
  {
    var keys := SortedUnique(GetKeys(ours) + GetKeys(theirs));
    var r := MergeBoth(ours, theirs);
    assert forall i :: 0 <= i < |r| ==> r[i].key == keys[i];
    forall k ensures GetByKey(r, k).Some? <==> GetByKey(ours, k).Some? || GetByKey(theirs, k).Some? {
      if GetByKey(r, k).Some? {
        var i :| 0 <= i < |r| && r[i].key == k;
        assert keys[i] in keys;
      }
      if GetByKey(ours, k).Some? || GetByKey(theirs, k).Some? {
        assert k in GetKeys(ours) + GetKeys(theirs);
        var i :| 0 <= i < |keys| && keys[i] == k;
        assert r[i].key == k;
      }
    }
  }

  /** Looking a key up in the merged record finds the per-key winner of the two sides. */
  lemma MergeBothLookup(ours: seq<Field>, theirs: seq<Field>, k: string)
    ensures GetByKey(MergeBoth(ours, theirs), k) == Winner(GetByKey(ours, k), GetByKey(theirs, k))
  {
    var keys := SortedUnique(GetKeys(ours) + GetKeys(theirs));
    var r := MergeBoth(ours, theirs);
    assert forall i :: 0 <= i < |r| ==> r[i].key == keys[i];
    if GetByKey(ours, k).Some? || GetByKey(theirs, k).Some? {
      assert k in GetKeys(ours) + GetKeys(theirs);
      var i :| 0 <= i < |keys| && keys[i] == k;
      forall j | 0 <= j < i ensures r[j].key != k {
        Text.LessIrreflexive(k);
      }
      GetByKeyAt(r, i);
    } else {
      MergeBothKeys(ours, theirs);
    }
  }

  /** Two key-sorted records that agree on every lookup are the same record. */
  lemma {:induction false} SortedRecordUnique(a: seq<Field>, b: seq<Field>)
    requires KeysStrictlySorted(a) && KeysStrictlySorted(b)
    requires forall k :: GetByKey(a, k) == GetByKey(b, k)
    ensures a == b
  {
    if a != [] {
      assert GetByKey(b, a[0].key).Some?;
    }
    if b != [] {
      assert GetByKey(a, b[0].key).Some?;
    }
    if a != [] && b != [] {
      var i :| 0 <= i < |a| && a[i].key == b[0].key;
      var j :| 0 <= j < |b| && b[j].key == a[0].key;
      Text.LessAsymmetric(a[0].key, b[0].key);
      assert a[0].key == b[0].key;
      GetByKeyAt(a, 0);
      GetByKeyAt(b, 0);
      forall k ensures GetByKey(a[1..], k) == GetByKey(b[1..], k) {
        TailLookup(a, k);
        TailLookup(b, k);
      }
      SortedRecordUnique(a[1..], b[1..]);
      assert a == [a[0]] + a[1..] && b == [b[0]] + b[1..];
    }
  }

  /** In a key-sorted record, the tail answers every lookup but the head's key as the record does. */
  lemma TailLookup(a: seq<Field>, k: string)
    requires a != [] && KeysStrictlySorted(a)
    ensures GetByKey(a[1..], k) == if k == a[0].key then None else GetByKey(a, k)
  {
    var t := a[1..];
    if k == a[0].key {
      forall i | 0 <= i < |t| ensures t[i].key != k {
        assert t[i] == a[i + 1];
        Text.LessIrreflexive(k);
      }
    } else if GetByKey(a, k).Some? {
      var i :| 0 <= i < |a| && a[i].key == k && forall j :: 0 <= j < i ==> a[j].key != k;
      assert i > 0 && t[i - 1] == a[i];
      GetByKeyAt(t, i - 1);
    } else {
      assert forall i :: 0 <= i < |t| ==> t[i] == a[i + 1];
    }
  }

  /** With no timestamp tie on a shared key, merging is symmetric in the two sides. */
  lemma MergeBothSymmetric(ours: seq<Field>, theirs: seq<Field>)
    requires forall k :: GetByKey(ours, k).Some? && GetByKey(theirs, k).Some?
                         ==> GetByKey(ours, k).value.ts != GetByKey(theirs, k).value.ts
    ensures MergeBoth(ours, theirs) == MergeBoth(theirs, ours)
  {
    MergeBothKeys(ours, theirs);
    MergeBothKeys(theirs, ours);
    forall k ensures GetByKey(MergeBoth(ours, theirs), k) == GetByKey(MergeBoth(theirs, ours), k) {
      MergeBothLookup(ours, theirs, k);
      MergeBothLookup(theirs, ours, k);
    }
    SortedRecordUnique(MergeBoth(ours, theirs), MergeBoth(theirs, ours));
  }

  /** Merging a key-sorted record with itself gives it back. */
  lemma MergeBothIdempotent(x: seq<Field>)
    requires KeysStrictlySorted(x)
    ensures MergeBoth(x, x) == x
  {
    MergeBothKeys(x, x);
    forall k ensures GetByKey(MergeBoth(x, x), k) == GetByKey(x, k) {
      MergeBothLookup(x, x, k);
    }
    SortedRecordUnique(MergeBoth(x, x), x);
  }

  /** The cases of `merge` that take one side or nothing, and the base's role when both sides are there. */
  lemma MergeCases(base: Option<seq<Field>>, ours: Option<seq<Field>>, theirs: Option<seq<Field>>)
    ensures ours.Some? && theirs.Some? ==> Merge(base, ours, theirs) == MergeBoth(ours.value, theirs.value)
    ensures base.None? && ours.Some? && theirs.None? ==> Merge(base, ours, theirs) == ours.value
    ensures base.None? && ours.None? && theirs.Some? ==> Merge(base, ours, theirs) == theirs.value
    ensures base.Some? && (ours.None? || theirs.None?) ==> Merge(base, ours, theirs) == []
    ensures ours.None? && theirs.None? ==> Merge(base, ours, theirs) == []
  {
  }

  // ------------------------------------------------------------ sakdb_dumps

  /** The dict `{"t": ts, "k": key, "c": crc}` a field header holds. */
  function HeaderMembers(f: Field): seq<Json.Member> {
    [("t", Json.JInt(f.ts)), ("k", Json.JStr(f.key)), ("c", Json.JStr(f.crc))]
  }

  /** `json.dumps({"t": ts, "k": key, "c": crc}, separators=(",", ":"))`. */
  function HeaderText(f: Field): string {
    Json.ObjectText(HeaderMembers(f), ",", ":")
  }

  function PayloadText(f: Field): string {
    Json.Quote(f.payload)
  }

  function LineText(f: Field): string {
    HeaderText(f) + [PayloadSeparator] + PayloadText(f)
  }

  /** The header of a field contains the separator exactly when its key or its crc does. */
  lemma HeaderSeparator(f: Field)
    ensures PayloadSeparator in HeaderText(f) <==> PayloadSeparator in f.key || PayloadSeparator in f.crc
  {
    var ms := HeaderMembers(f);
    Json.ObjectTextHas(ms, ",", ":", PayloadSeparator);
    assert !Json.MemberHas(ms[0], PayloadSeparator);
    assert Json.MemberHas(ms[1], PayloadSeparator) <==> PayloadSeparator in f.key;
    assert Json.MemberHas(ms[2], PayloadSeparator) <==> PayloadSeparator in f.crc;
  }

  /** The lines of `sakdb_dumps`, failing at the first header that holds the separator. */
  function DumpLines(fields: seq<Field>): Result<seq<string>>
  {
    if fields == [] then Ok([])
    else if PayloadSeparator in HeaderText(fields[0]) then Fail(HeaderHasSeparator)
    else
      match DumpLines(fields[1..])
      case Fail(e) => Fail(e)
      case Ok(rest) => Ok([LineText(fields[0])] + rest)
  }

  /** The lines are written unless some header holds the separator. */
  lemma {:induction false} DumpLinesFail(fields: seq<Field>)
    ensures DumpLines(fields).Fail? <==> exists i :: 0 <= i < |fields| && PayloadSeparator in HeaderText(fields[i])
  {
    if fields != [] {
      DumpLinesFail(fields[1..]);
      assert forall i :: 1 <= i < |fields| ==> fields[i] == fields[1..][i - 1];
    }
  }

  /** One line per field, in field order. */
  lemma {:induction false} DumpLinesOk(fields: seq<Field>)
    requires DumpLines(fields).Ok?
    ensures |DumpLines(fields).value| == |fields|
    ensures forall i :: 0 <= i < |fields| ==> DumpLines(fields).value[i] == LineText(fields[i])
  {
    if fields != [] {
      var rest := DumpLines(fields[1..]).value;
      DumpLinesOk(fields[1..]);
      var v := DumpLines(fields).value;
      assert v == [LineText(fields[0])] + rest;
      forall i | 0 <= i < |fields| ensures v[i] == LineText(fields[i]) {
        if i > 0 {
          assert v[i] == rest[i - 1] && fields[1..][i - 1] == fields[i];
        }
      }
    }
  }

  /** `sakdb_dumps`: one line per field, in order, each ended by a newline. */
  function Dumps(fields: seq<Field>): (r: Result<string>)
  {
    match DumpLines(fields)
    case Fail(e) => Fail(e)
    case Ok(lines) => Ok(Text.Join(lines, "\n") + "\n")
  }

  /** `sakdb_dumps` raises exactly when some field's key or crc contains the separator. */
  lemma DumpsFails(fields: seq<Field>)
    ensures Dumps(fields).Fail? <==>
            exists i :: 0 <= i < |fields| && (PayloadSeparator in fields[i].key || PayloadSeparator in fields[i].crc)
  {
    DumpLinesFail(fields);
    forall i | 0 <= i < |fields| {
      HeaderSeparator(fields[i]);
    }
  }

  // ------------------------------------------------------------ sakdb_loads

  /** One stripped, non-blank line: header, separator, payload. */
  function ParseFieldLine(line: string, sep: string): (r: Result<Field>)
    requires sep != []
  {
    match Text.SplitOnce(line, sep)
    case None => Fail(MissingSeparator)
    case Some((header, payload)) =>
      match Json.LoadsObject(header)
      case Fail(e) => Fail(e)
      case Ok(parsed) =>
        match Json.LoadsString(payload)
        case Fail(e) => Fail(e)
        case Ok(p) =>
          var t := Json.Lookup(parsed, "t");
          var k := Json.Lookup(parsed, "k");
          var c := Json.Lookup(parsed, "c");
          if t.None? || k.None? || c.None? then Fail(MissingEntry)
          else if !t.value.JInt? || !k.value.JStr? || !c.value.JStr? then Fail(BadJson)
          else Ok(Field(t.value.n, k.value.s, c.value.s, p))
  }

  /** The fields of the non-blank lines, in order, each split at the first `sep`. */
  function LoadLines(lines: seq<string>, sep: string): (r: Result<seq<Field>>)
    requires sep != []
    ensures r.Ok? && r.value == [] ==> forall i :: 0 <= i < |lines| ==> Text.Strip(lines[i]) == []
  {
    if lines == [] then Ok([])
    else
      var line := Text.Strip(lines[0]);
      var rest := LoadLines(lines[1..], sep);
      assert forall i :: 1 <= i < |lines| ==> lines[i] == lines[1..][i - 1];
      if line == [] then rest
      else
        match ParseFieldLine(line, sep)
        case Fail(e) => Fail(e)
        case Ok(f) =>
          match rest
          case Fail(e) => Fail(e)
          case Ok(fs) => Ok([f] + fs)
  }

  /** `sakdb_loads`: None when the text has no non-blank line. */
  function Loads(data: string): (r: Result<Option<seq<Field>>>)
    ensures r.Ok? && r.value.Some? ==> r.value.value != []
  {
    match LoadLines(Text.SplitLines(data), [PayloadSeparator])
    case Fail(e) => Fail(e)
    case Ok(fields) => if fields == [] then Ok(None) else Ok(Some(fields))
  }

  /** `sakdb_loads` skips a text of blank lines, the dump of an empty record among them. */
  lemma LoadsDumpsEmpty()
    ensures Dumps([]) == Ok("\n")
    ensures Loads("\n") == Ok(None)
  {
    Text.SplitEmptyTerminated();
    Text.StripEmpty();
    assert LoadLines([""], [PayloadSeparator]) == Ok([]);
    assert Text.Join([], "\n") + "\n" == "\n";
  }

  lemma HeaderLookups(f: Field)
    ensures var ms := HeaderMembers(f);
            Json.Lookup(ms, "t") == Some(Json.JInt(f.ts)) && Json.Lookup(ms, "k") == Some(Json.JStr(f.key))
            && Json.Lookup(ms, "c") == Some(Json.JStr(f.crc))
  {
    var ms := HeaderMembers(f);
    assert ms[..2] == [ms[0], ms[1]];
    assert [ms[0], ms[1]][..1] == [ms[0]];
    assert Json.Lookup([ms[0]], "t") == Some(Json.JInt(f.ts));
    assert Json.Lookup([ms[0], ms[1]], "t") == Some(Json.JInt(f.ts));
    assert Json.Lookup([ms[0], ms[1]], "k") == Some(Json.JStr(f.key));
  }

  /** A line whose header and payload decode to a field's parts is parsed to that field. */
  lemma ParseFieldLineStep(line: string, sep: string, header: string, payload: string, f: Field)
    requires sep != []
    requires Text.SplitOnce(line, sep) == Some((header, payload))
    requires Json.LoadsObject(header) == Ok(HeaderMembers(f)) && Json.LoadsString(payload) == Ok(f.payload)
    ensures ParseFieldLine(line, sep) == Ok(f)
  {
    HeaderLookups(f);
  }

  lemma ParseLineOf(f: Field)
    requires PayloadSeparator !in HeaderText(f)
    ensures ParseFieldLine(LineText(f), [PayloadSeparator]) == Ok(f)
  {
    var header := HeaderText(f);
    var payload := PayloadText(f);
    assert Text.SplitOnce(LineText(f), [PayloadSeparator]) == Some((header, payload)) by {
      Text.SplitOnceChar(header, PayloadSeparator, payload);
    }
    assert Json.LoadsObject(header) == Ok(HeaderMembers(f)) by {
      Json.ObjectRoundTrip(HeaderMembers(f), ",", ":");
    }
    assert Json.LoadsString(payload) == Ok(f.payload) by {
      Json.LoadsQuote(f.payload);
    }
    ParseFieldLineStep(LineText(f), [PayloadSeparator], header, payload, f);
  }

  /** A written line is its own stripped form, free of line breaks. */
  lemma LineTextShape(f: Field)
    ensures Text.NoLineBreak(LineText(f))
    ensures Text.Strip(LineText(f)) == LineText(f) && LineText(f) != []
  {
    Json.ObjectTextNoBreak(HeaderMembers(f), ",", ":");
    Json.QuoteNoBreak(f.payload);
    Text.NoBreakConcat(HeaderText(f), [PayloadSeparator]);
    Text.NoBreakConcat(HeaderText(f) + [PayloadSeparator], PayloadText(f));
    var l := LineText(f);
    assert l[0] == '{';
    assert l[|l| - 1] == '"';
    Text.StripUnchanged(l);
  }

  /** A non-blank line that parses to a field puts that field first. */
  lemma LoadLinesStep(line: string, rest: seq<string>, sep: string, f: Field, fields: seq<Field>)
    requires sep != [] && line != [] && Text.Strip(line) == line
    requires ParseFieldLine(line, sep) == Ok(f) && LoadLines(rest, sep) == Ok(fields)
    ensures LoadLines([line] + rest, sep) == Ok([f] + fields)
  {
    assert ([line] + rest)[1..] == rest;
  }

  /** One non-blank line that does not parse makes the whole text fail. */
  lemma {:induction false} LoadLinesFailsAt(lines: seq<string>, sep: string, i: nat)
    requires sep != [] && i < |lines| && Text.Strip(lines[i]) != []
    requires ParseFieldLine(Text.Strip(lines[i]), sep).Fail?
    ensures LoadLines(lines, sep).Fail?
  {
    var line := Text.Strip(lines[0]);
    if i > 0 {
      assert lines[1..][i - 1] == lines[i];
      LoadLinesFailsAt(lines[1..], sep, i - 1);
      if line == [] {
        assert LoadLines(lines, sep) == LoadLines(lines[1..], sep);
      }
    } else {
      assert ParseFieldLine(line, sep).Fail?;
    }
  }

  lemma LoadLinesCons(f: Field, rest: seq<string>, fields: seq<Field>)
    requires PayloadSeparator !in HeaderText(f)
    requires LoadLines(rest, [PayloadSeparator]) == Ok(fields)
    ensures LoadLines([LineText(f)] + rest, [PayloadSeparator]) == Ok([f] + fields)
  {
    var lines := [LineText(f)] + rest;
    assert lines[1..] == rest;
    LineTextShape(f);
    ParseLineOf(f);
  }

  /** A record's lines are its first field's line, then the lines of the rest. */
  lemma DumpLinesCons(fields: seq<Field>)
    requires fields != [] && DumpLines(fields).Ok?
    ensures PayloadSeparator !in HeaderText(fields[0]) && DumpLines(fields[1..]).Ok?
    ensures DumpLines(fields).value == [LineText(fields[0])] + DumpLines(fields[1..]).value
  {
  }

  /** Reading back the written lines gives the fields. */
  lemma {:induction false} LoadDumpLines(fields: seq<Field>)
    requires DumpLines(fields).Ok?
    ensures LoadLines(DumpLines(fields).value, [PayloadSeparator]) == Ok(fields)
  {
    if fields != [] {
      DumpLinesCons(fields);
      LoadDumpLines(fields[1..]);
      LoadLinesCons(fields[0], DumpLines(fields[1..]).value, fields[1..]);
      assert [fields[0]] + fields[1..] == fields;
    }
  }

  /** No written line holds a line break. */
  lemma {:induction false} DumpLinesNoBreak(fields: seq<Field>)
    requires DumpLines(fields).Ok?
    ensures forall i :: 0 <= i < |DumpLines(fields).value| ==> Text.NoLineBreak(DumpLines(fields).value[i])
  {
    if fields != [] {
      DumpLinesCons(fields);
      DumpLinesNoBreak(fields[1..]);
      LineTextShape(fields[0]);
    }
  }

  /** `sakdb_loads(sakdb_dumps(x))` gives back a non-empty record field for field. */
  lemma RoundTrip(fields: seq<Field>)
    requires fields != []
    requires Dumps(fields).Ok?
    ensures Loads(Dumps(fields).value) == Ok(Some(fields))
  {
    var lines := DumpLines(fields).value;
    LoadDumpLines(fields);
    DumpLinesNoBreak(fields);
    DumpLinesOk(fields);
    Text.SplitJoinTerminated(lines);
  }
}

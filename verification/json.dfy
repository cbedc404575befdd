/** The dynamic JSON value tree every payload passes through (strason's
    `Json`), the error its structural decoders report, and key lookup in an
    object as a serde-derived decoder performs it. */
module JsonTree {

  /** A JSON value. Numbers are integers; an object keeps its members in
      order, and nothing stops two members from sharing a key. */
  datatype Json =
    | Null
    | Bool(b: bool)
    | Int(i: int)
    | Str(s: string)
    | Arr(elems: seq<Json>)
    | Obj(members: seq<Member>)

  /** One `"key": value` member of an object. */
  datatype Member = Member(key: string, value: Json)

  /** Why a JSON value could not be decoded into a typed value. */
  datatype DecodeError =
    | InvalidType(expected: string)
    | MissingField(field: string)
    | DuplicateField(field: string)

  /** The outcome of looking a key up in an object's members. */
  datatype Lookup = Absent | Unique(value: Json) | Duplicated

  /** Some member of `ms` has key `key`. */
  ghost predicate HasKey(ms: seq<Member>, key: string)
  {
    exists i :: 0 <= i < |ms| && ms[i].key == key
  }

  /** Member `i` of `ms` has key `key`, and no other member has it. */
  ghost predicate OnlyAt(ms: seq<Member>, key: string, i: int)
  {
    && 0 <= i < |ms|
    && ms[i].key == key
    && forall j :: 0 <= j < |ms| && j != i ==> ms[j].key != key
  }

  /** Two distinct members of `ms` have key `key`. */
  ghost predicate KeyRepeated(ms: seq<Member>, key: string)
  {
    exists i, j :: 0 <= i < j < |ms| && ms[i].key == key && ms[j].key == key
  }

  /** Looks `key` up among `ms`: a derived struct decoder accepts a field
      that occurs once, treats one that does not occur as missing, and
      rejects one that occurs twice. `FindCorrect` states what it finds. */
  function Find(ms: seq<Member>, key: string): Lookup
    decreases |ms|
  {
    if |ms| == 0 then Absent
    else
      var rest := Find(ms[1..], key);
      if ms[0].key != key then rest
      else if rest.Absent? then Unique(ms[0].value)
      else Duplicated
  }

  /** `Find` reports a key as absent exactly when no member has it, as
      unique exactly when one member has it (with that member's value), and
      as duplicated exactly when two or more members have it. */
  lemma {:induction false} FindCorrect(ms: seq<Member>, key: string)
    ensures Find(ms, key).Absent? <==> !HasKey(ms, key)
    ensures Find(ms, key).Unique? <==> exists i :: OnlyAt(ms, key, i)
    ensures Find(ms, key).Unique? ==>
      exists i :: OnlyAt(ms, key, i) && ms[i].value == Find(ms, key).value
    ensures Find(ms, key).Duplicated? <==> KeyRepeated(ms, key)
    decreases |ms|
  {
    if |ms| > 0 {
      FindCorrect(ms[1..], key);
      FindStep(ms, key, Find(ms[1..], key));
    }
  }

  /** Relates the key facts of `ms` to those of its tail `ms[1..]`. */
  lemma FindStep(ms: seq<Member>, key: string, rest: Lookup)
    requires |ms| > 0
    requires rest.Absent? <==> !HasKey(ms[1..], key)
    requires rest.Unique? <==> exists i :: OnlyAt(ms[1..], key, i)
    requires rest.Unique? ==> exists i :: OnlyAt(ms[1..], key, i) && ms[1..][i].value == rest.value
    requires rest.Duplicated? <==> KeyRepeated(ms[1..], key)
    ensures HasKey(ms, key) <==> ms[0].key == key || HasKey(ms[1..], key)
    ensures ms[0].key != key ==>
      && ((exists i :: OnlyAt(ms, key, i)) <==> (exists i :: OnlyAt(ms[1..], key, i)))
      && (rest.Unique? ==> exists i :: OnlyAt(ms, key, i) && ms[i].value == rest.value)
      && (KeyRepeated(ms, key) <==> KeyRepeated(ms[1..], key))
    ensures ms[0].key == key ==>
      && (OnlyAt(ms, key, 0) <==> !HasKey(ms[1..], key))
      && ((exists i :: OnlyAt(ms, key, i)) <==> !HasKey(ms[1..], key))
      && (KeyRepeated(ms, key) <==> HasKey(ms[1..], key))
  {
    var tl := ms[1..];
    if HasKey(ms, key) && ms[0].key != key {
      var i :| 0 <= i < |ms| && ms[i].key == key;
      assert tl[i - 1].key == key;
    }
    if HasKey(tl, key) {
      var i :| 0 <= i < |tl| && tl[i].key == key;
      assert ms[i + 1].key == key;
    }
    if ms[0].key != key {
      if exists i :: OnlyAt(ms, key, i) {
        var i :| OnlyAt(ms, key, i);
        assert OnlyAt(tl, key, i - 1);
      }
      if exists i :: OnlyAt(tl, key, i) {
        var i :| OnlyAt(tl, key, i) && (rest.Unique? ==> tl[i].value == rest.value);
        assert OnlyAt(ms, key, i + 1);
      }
      if KeyRepeated(ms, key) {
        var i, j :| 0 <= i < j < |ms| && ms[i].key == key && ms[j].key == key;
        assert tl[i - 1].key == key && tl[j - 1].key == key;
      }
      if KeyRepeated(tl, key) {
        var i, j :| 0 <= i < j < |tl| && tl[i].key == key && tl[j].key == key;
        assert ms[i + 1].key == key && ms[j + 1].key == key;
      }
    } else {
      if HasKey(tl, key) {
        var i :| 0 <= i < |tl| && tl[i].key == key;
        assert ms[i + 1].key == key;
        assert !OnlyAt(ms, key, 0);
        assert KeyRepeated(ms, key);
      } else {
        forall j | 0 <= j < |ms| && j != 0
          ensures ms[j].key != key
        {
          assert ms[j] == tl[j - 1];
        }
        assert OnlyAt(ms, key, 0);
      }
    }
  }

  /** A key that occurs exactly once is found with its value. */
  lemma FindOnlyAt(ms: seq<Member>, key: string, i: int)
    requires OnlyAt(ms, key, i)
    ensures Find(ms, key) == Unique(ms[i].value)
  {
    FindCorrect(ms, key);
    var r := Find(ms, key);
    var k :| OnlyAt(ms, key, k) && ms[k].value == r.value;
    assert k == i;
  }

  /** Inserting a member under another key anywhere among `ms1 + ms2`
      leaves a lookup unchanged: keys a decoder does not ask for cannot
      disturb the ones it does, wherever they stand. */
  lemma {:induction false} FindInsertOther(ms1: seq<Member>, ms2: seq<Member>, key: string, extra: Member)
    requires extra.key != key
    ensures Find(ms1 + [extra] + ms2, key) == Find(ms1 + ms2, key)
    decreases |ms1|
  {
    if |ms1| == 0 {
      assert ms1 + [extra] + ms2 == [extra] + ms2;
      assert ([extra] + ms2)[1..] == ms2;
      assert ms1 + ms2 == ms2;
    } else {
      assert (ms1 + [extra] + ms2)[0] == (ms1 + ms2)[0] == ms1[0];
      assert (ms1 + [extra] + ms2)[1..] == ms1[1..] + [extra] + ms2;
      assert (ms1 + ms2)[1..] == ms1[1..] + ms2;
      FindInsertOther(ms1[1..], ms2, key, extra);
    }
  }
}

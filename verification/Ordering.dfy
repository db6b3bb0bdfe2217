/**
 The order on tuples that `Comparator::compare` decides from a list of sort keys
 (src/common/m_trees.cpp:19-56).
 */
module Ordering {

  /** A tuple as the unsigned 64-bit words at the addresses of its columns. */
  type Row = seq<nat>

  /** The two data types of src/common/m_data_type.h that compare values. */
  datatype DataType = IntegerType | UnLongType {
    /** The value that a comparison reads: the low 32 bits with a sign, or the whole word. */
    function Read(word: nat): (r: int)
      ensures IntegerType? ==> -0x8000_0000 <= r < 0x8000_0000 && (word - r) % 0x1_0000_0000 == 0
      ensures UnLongType? ==> r == word
    {
      match this
      case IntegerType =>
        var low := word % 0x1_0000_0000;
        if low < 0x8000_0000 then low else low - 0x1_0000_0000
      case UnLongType => word
    }
  }

  /** A sort key: the column it addresses, its direction, and the data type it compares with. */
  datatype SortOrder = SortOrder(offset: nat, ascending: bool, kind: DataType)

  ghost predicate Wide(vs: seq<SortOrder>, t: Row) {
    forall i :: 0 <= i < |vs| ==> vs[i].offset < |t|
  }

  ghost function Field(v: SortOrder, t: Row): int {
    if v.offset < |t| then v.kind.Read(t[v.offset]) else 0
  }

  /** Lexicographic by the sort keys, each in its own direction. */
  ghost predicate Leq(vs: seq<SortOrder>, a: Row, b: Row) {
    vs == [] ||
    var x, y := Field(vs[0], a), Field(vs[0], b);
    if x == y then Leq(vs[1..], a, b) else (x < y) == vs[0].ascending
  }

  lemma {:induction false} LeqTotal(vs: seq<SortOrder>, a: Row, b: Row)
    ensures Leq(vs, a, b) || Leq(vs, b, a)
    ensures a == b ==> Leq(vs, a, b)
  {
    if vs != [] {
      LeqTotal(vs[1..], a, b);
    }
  }

  lemma {:induction false} LeqTransitive(vs: seq<SortOrder>, a: Row, b: Row, c: Row)
    requires Leq(vs, a, b) && Leq(vs, b, c)
    ensures Leq(vs, a, c)
  {
    if vs != [] && Field(vs[0], a) == Field(vs[0], b) == Field(vs[0], c) {
      LeqTransitive(vs[1..], a, b, c);
    }
  }

  /** Tuples that are each below the other agree on every sort key. */
  lemma {:induction false} LeqBothWays(vs: seq<SortOrder>, a: Row, b: Row)
    ensures Leq(vs, a, b) && Leq(vs, b, a) <==> forall i :: 0 <= i < |vs| ==> Field(vs[i], a) == Field(vs[i], b)
  {
    if vs != [] {
      LeqBothWays(vs[1..], a, b);
      assert forall i :: 1 <= i < |vs| ==> vs[i] == vs[1..][i - 1];
      assert (forall i :: 0 <= i < |vs| ==> Field(vs[i], a) == Field(vs[i], b)) <==>
        Field(vs[0], a) == Field(vs[0], b) &&
        forall i :: 0 <= i < |vs[1..]| ==> Field(vs[1..][i], a) == Field(vs[1..][i], b);
    }
  }

  /** The value of t for key v. */
  ghost function ValueOf(v: SortOrder, t: Row): int
    requires v.offset < |t|
  {
    v.kind.Read(t[v.offset])
  }

  /** The first i keys do not tell a and b apart. */
  ghost predicate Tied(vs: seq<SortOrder>, a: Row, b: Row, i: int)
    requires 0 <= i <= |vs| && Wide(vs, a) && Wide(vs, b)
  {
    forall j :: 0 <= j < i ==> ValueOf(vs[j], a) == ValueOf(vs[j], b)
  }

  /** Key i is the first that tells a and b apart, and it puts a before b. */
  ghost predicate DecidedBy(vs: seq<SortOrder>, a: Row, b: Row, i: int)
    requires 0 <= i < |vs| && Wide(vs, a) && Wide(vs, b)
  {
    Tied(vs, a, b, i) &&
    if vs[i].ascending then ValueOf(vs[i], a) < ValueOf(vs[i], b) else ValueOf(vs[i], a) > ValueOf(vs[i], b)
  }

  /** a is not after b exactly when all keys tie or the first that does not puts a before b. */
  lemma {:induction false} LeqLexicographic(vs: seq<SortOrder>, a: Row, b: Row)
    requires Wide(vs, a) && Wide(vs, b)
    ensures Leq(vs, a, b) <==> Tied(vs, a, b, |vs|) || exists i :: 0 <= i < |vs| && DecidedBy(vs, a, b, i)
  {
    if vs != [] {
      var rest := vs[1..];
      assert forall i :: 0 <= i < |rest| ==> rest[i] == vs[i + 1];
      LeqLexicographic(rest, a, b);
      var x, y := ValueOf(vs[0], a), ValueOf(vs[0], b);
      if x == y {
        assert forall i :: 0 <= i <= |rest| ==> (Tied(rest, a, b, i) <==> Tied(vs, a, b, i + 1));
        assert forall i :: 0 <= i < |rest| ==> (DecidedBy(rest, a, b, i) <==> DecidedBy(vs, a, b, i + 1));
        if Leq(vs, a, b) && !Tied(vs, a, b, |vs|) {
          var i :| 0 <= i < |rest| && DecidedBy(rest, a, b, i);
          assert DecidedBy(vs, a, b, i + 1);
        }
        if i :| 0 <= i < |vs| && DecidedBy(vs, a, b, i) {
          assert DecidedBy(rest, a, b, i - 1);
        }
      } else {
        assert DecidedBy(vs, a, b, 0) <==> Leq(vs, a, b);
      }
    }
  }

  /** One key: ascending compares with at most, descending with at least. */
  lemma OneKey(v: SortOrder, a: Row, b: Row)
    requires v.offset < |a| && v.offset < |b|
    ensures Leq([v], a, b) <==>
            if v.ascending then ValueOf(v, a) <= ValueOf(v, b) else ValueOf(v, a) >= ValueOf(v, b)
  {
    assert [v][1..] == [];
  }

  // ----- The data type of a key is taken by its position in the list -----

  /** An entry of the sort list as the plan gives it. */
  datatype SortEntry = SortEntry(offset: nat, ascending: bool)

  /** The keys that the program compares with: entry i uses data type number i of the schema. */
  function KeysByPosition(entries: seq<SortEntry>, schema: seq<DataType>): (vs: seq<SortOrder>)
    requires |entries| <= |schema|
  {
    seq(|entries|, i requires 0 <= i < |entries| =>
      SortOrder(entries[i].offset, entries[i].ascending, schema[i]))
  }

  /** The keys that the columns themselves ask for. */
  ghost function KeysByColumn(entries: seq<SortEntry>, schema: seq<DataType>): (vs: seq<SortOrder>)
    requires forall i :: 0 <= i < |entries| ==> entries[i].offset < |schema|
  {
    seq(|entries|, i requires 0 <= i < |entries| =>
      SortOrder(entries[i].offset, entries[i].ascending, schema[entries[i].offset]))
  }

  ghost predicate SameOrder(vs: seq<SortOrder>, ws: seq<SortOrder>) {
    forall a: Row, b: Row :: Leq(vs, a, b) <==> Leq(ws, a, b)
  }

  /** A list of one entry sorts by its column exactly when that column has the first data type of the schema. */
  lemma FirstKeyByColumn(entry: SortEntry, schema: seq<DataType>)
    requires entry.offset < |schema|
    ensures SameOrder(KeysByPosition([entry], schema), KeysByColumn([entry], schema)) <==>
            schema[0] == schema[entry.offset]
  {
    var vs, ws := KeysByPosition([entry], schema), KeysByColumn([entry], schema);
    if schema[0] == schema[entry.offset] {
      assert vs == ws;
    } else {
      var a: Row := seq(entry.offset + 1, i => 0);
      var b: Row := seq(entry.offset + 1, i => 0xFFFF_FFFF);
      assert vs[1..] == [] && ws[1..] == [];
      assert Leq(vs, a, b) != Leq(ws, a, b);
    }
  }

  /** Any list sorts by its columns when every entry addresses a column of the type at its own position. */
  lemma KeysAgree(entries: seq<SortEntry>, schema: seq<DataType>)
    requires |entries| <= |schema|
    requires forall i :: 0 <= i < |entries| ==> entries[i].offset < |schema| && schema[entries[i].offset] == schema[i]
    ensures KeysByPosition(entries, schema) == KeysByColumn(entries, schema)
  {
  }

  /** The comparison loop. */
  method Compare(vs: seq<SortOrder>, left: Row, right: Row) returns (r: bool)
    requires Wide(vs, left) && Wide(vs, right)
    ensures r <==> Leq(vs, left, right)
  {
    assert vs[0..] == vs;
    for i := 0 to |vs|
      invariant Leq(vs, left, right) <==> Leq(vs[i..], left, right)
    {
      var l, x := vs[i].kind.Read(left[vs[i].offset]), vs[i].kind.Read(right[vs[i].offset]);
      assert vs[i..][1..] == vs[i + 1..];
      var flag;
      if l == x {
        flag := 0;
      } else if l < x && vs[i].ascending {
        flag := 1;
      } else if l < x && !vs[i].ascending {
        flag := 2;
      } else if l > x && !vs[i].ascending {
        flag := 1;
      } else {
        flag := 2;
      }
      if flag == 1 {
        return true;
      }
      if flag == 2 {
        return false;
      }
    }
    r := true;
  }
}

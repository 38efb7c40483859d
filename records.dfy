/** A CSV record as the reader hands it over: a Python dict from column name to
    value, whose iteration order is the order of its keys (the header order).
    The dict is kept as its keys in order and the values at the same positions;
    assigning to an existing key changes the value and leaves the order alone.
    Normalisation rewrites the dict in place, so a record is an object. */
module Records {
  import opened Values

  /** A dict never holds the same key twice. */
  predicate DistinctKeys(keys: seq<string>) {
    forall i, j :: 0 <= i < j < |keys| ==> keys[i] != keys[j]
  }

  /** Position of key `k`, if it is there (the first one, should a sequence
      hold it twice). */
  function Find(keys: seq<string>, k: string): (r: Option<nat>)
    ensures r.Some? ==> r.value < |keys| && keys[r.value] == k
    ensures r.None? <==> k !in keys
  {
    if keys == [] then None
    else if keys[0] == k then Some(0)
    else match Find(keys[1..], k)
      case None => None
      case Some(j) => Some(j + 1)
  }

  /** In a dict, the position holding key `k` is the one `Find` locates. */
  lemma {:induction false} FindDistinct(keys: seq<string>, k: string, i: nat)
    requires DistinctKeys(keys)
    requires i < |keys| && keys[i] == k
    ensures Find(keys, k) == Some(i)
  {
    if i > 0 {
      assert keys[0] != k;
      FindDistinct(keys[1..], k, i - 1);
    }
  }

  /** A snapshot of a record: its keys and the values at the same positions. */
  datatype Row = Row(keys: seq<string>, values: seq<Value>) {
    /** Every key has a value. */
    predicate WellFormed() {
      |keys| == |values|
    }

    /** What a Python dict always is: aligned, and no key twice. */
    predicate IsDict() {
      WellFormed() && DistinctKeys(keys)
    }
  }

  /** `row[k]`: the value under key `k`, or a KeyError. */
  function Get(r: Row, k: string): (v: Result<Value>)
    requires r.WellFormed()
    ensures v.Err? <==> k !in r.keys
    ensures v.Err? ==> v.error == KeyError(k)
  {
    match Find(r.keys, k)
    case None => Err(KeyError(k))
    case Some(j) => Ok(r.values[j])
  }

  /** One CSV row, as the mutable dict `csv.DictReader` yields. */
  class Record {
    var keys: seq<string>
    var values: seq<Value>

    ghost predicate Valid()
      reads this
    {
      Snapshot().IsDict()
    }

    /** The record's current contents. */
    function Snapshot(): Row
      reads this
    {
      Row(keys, values)
    }

    constructor (keys: seq<string>, values: seq<Value>)
      requires Row(keys, values).IsDict()
      ensures Valid() && this.keys == keys && this.values == values
    {
      this.keys := keys;
      this.values := values;
    }
  }

  /** The current contents of a list of records. */
  ghost function Contents(rows: seq<Record>): (c: seq<Row>)
    reads rows
    ensures |c| == |rows|
    ensures forall i :: 0 <= i < |rows| ==> c[i] == rows[i].Snapshot()
  {
    seq(|rows|, i reads rows requires 0 <= i < |rows| => rows[i].Snapshot())
  }
}

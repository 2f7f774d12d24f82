/** The part of a TOML document the model reads and writes. */
module Toml {
  import opened Wrappers

  /** A TOML value; floats and date-times are not distinguished from other mismatched kinds. */
  datatype Value =
    | String(s: string)
    | Integer(i: int)
    | Boolean(b: bool)
    | Array(items: seq<Value>)
    | Table(entries: map<string, Value>)

  /** A list of strings written as a TOML array. */
  function StringArray(xs: seq<string>): (v: Value)
    ensures v.Array? && |v.items| == |xs|
  {
    Array(seq(|xs|, i requires 0 <= i < |xs| => String(xs[i])))
  }

  /** A TOML array read as `Vec<String>`: every element must be a string. */
  function StringList(items: seq<Value>): (r: Option<seq<string>>)
    ensures r.Some? <==> forall i :: 0 <= i < |items| ==> items[i].String?
    ensures r.Some? ==> |r.value| == |items| && forall i :: 0 <= i < |items| ==> r.value[i] == items[i].s
    decreases |items|
  {
    if items == [] then Some([])
    else if !items[0].String? then None
    else match StringList(items[1..])
      case None => None
      case Some(rest) => Some([items[0].s] + rest)
  }

  lemma StringListOfArray(xs: seq<string>)
    ensures StringList(StringArray(xs).items) == Some(xs)
  {
    var r := StringList(StringArray(xs).items);
    assert r.Some?;
    assert r.value == xs;
  }
}

/** JSON values and lookups in JSON objects. A number remembers whether it is held as an integer or as a
    floating-point number: `1` and `1.0` are different values. */
module Json {
  import opened Text

  datatype Json =
    | Null
    | Bool(flag: bool)
    | Number(number: real, floating: bool)
    | Str(text: string)
    | Arr(items: seq<Json>)
    | Obj(fields: map<string, Json>)

  function Get(m: map<string, Json>, p: string): Option<Json> { if p in m then Some(m[p]) else None }

  lemma SameGets(a: map<string, Json>, b: map<string, Json>)
    requires forall q :: Get(a, q) == Get(b, q)
    ensures a == b
  {
    forall q ensures q in a <==> q in b { assert Get(a, q) == Get(b, q); }
    forall q | q in a ensures a[q] == b[q] { assert Get(a, q) == Get(b, q); }
  }
}

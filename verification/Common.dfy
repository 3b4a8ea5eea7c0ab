/** Result types and lists of lists, shared by the components. */
module Common {

  datatype Option<+T> = None | Some(value: T) {
    function GetOr(default: T): T {
      match this
      case Some(v) => v
      case None => default
    }
  }

  datatype Result<+T, +E> = Ok(value: T) | Err(error: E)

  // ----- a list of lists -----

  function Flatten<T>(parts: seq<seq<T>>): seq<T> {
    if parts == [] then [] else Flatten(parts[..|parts| - 1]) + parts[|parts| - 1]
  }

  lemma {:induction false} FlattenSnoc<T>(parts: seq<seq<T>>, last: seq<T>)
    ensures Flatten(parts + [last]) == Flatten(parts) + last
  {
    assert (parts + [last])[..|parts|] == parts;
  }

  lemma {:induction false} FlattenConcat<T>(a: seq<seq<T>>, b: seq<seq<T>>)
    ensures Flatten(a + b) == Flatten(a) + Flatten(b)
    decreases |b|
  {
    if b == [] {
      assert a + b == a;
    } else {
      var front, last := b[..|b| - 1], b[|b| - 1];
      FlattenConcat(a, front);
      FlattenSnoc(a + front, last);
      FlattenSnoc(front, last);
      hide Flatten;
      assert b == front + [last] && a + b == (a + front) + [last];
    }
  }

  lemma {:induction false} FlattenCons<T>(parts: seq<seq<T>>)
    requires parts != []
    ensures Flatten(parts) == parts[0] + Flatten(parts[1..])
  {
    assert parts == [parts[0]] + parts[1..];
    FlattenConcat([parts[0]], parts[1..]);
    assert [parts[0]][..0] == [];
    assert Flatten([parts[0]]) == parts[0];
  }
}

/** Option and Result, with the exceptions the generator can raise as the error side. */
module Wrappers {

  datatype Option<+T> = None | Some(value: T)

  /** The .NET exceptions that escape the generator's core. */
  datatype Exception =
    | IndexOutOfRange      // a generic argument slot read past the end of the argument array
    | InvalidOperation     // a tuple index the tuple switch does not know ("Hey, what Tuple")
    | Overflow             // an enum value that does not fit in a 32-bit int
    | NullReference        // a class or struct declaration whose BaseType is null

  datatype Result<+T> = Ok(value: T) | Err(error: Exception)

  /** Appending to a list that extends a prefix extends the same prefix. */
  lemma AppendToExtension<T>(prefix: seq<T>, rest: seq<T>, x: T)
    ensures (prefix + rest) + [x] == prefix + (rest + [x])
  {
  }

  /** Evaluates a row of computations left to right, as C# does with an argument list or a
      `Select(...).ToArray()`: the first exception wins, otherwise all values in order. */
  function Collect<T>(rs: seq<Result<T>>): (r: Result<seq<T>>)
    ensures r.Ok? <==> forall i :: 0 <= i < |rs| ==> rs[i].Ok?
    ensures r.Ok? ==> |r.value| == |rs| && forall i :: 0 <= i < |rs| ==> rs[i] == Ok(r.value[i])
    ensures r.Err? ==> exists i :: 0 <= i < |rs| && rs[i] == Err(r.error) && forall j :: 0 <= j < i ==> rs[j].Ok?
  {
    if rs == [] then Ok([])
    else match rs[0]
      case Err(e) => Err(e)
      case Ok(v) =>
        match Collect(rs[1..])
        case Err(e) =>
          assert forall i :: 1 <= i < |rs| ==> rs[i] == rs[1..][i - 1];
          Err(e)
        case Ok(vs) => Ok([v] + vs)
  }

  /** The first failing computation decides the error of the whole row. */
  lemma CollectFirstError<T>(rs: seq<Result<T>>, i: nat)
    requires i < |rs| && rs[i].Err? && Collect(rs[..i]).Ok?
    ensures Collect(rs) == Err(rs[i].error)
  {
    assert forall j :: 0 <= j < i ==> rs[..i][j] == rs[j];
    var r := Collect(rs);
    var k :| 0 <= k < |rs| && rs[k] == Err(r.error) && forall j :: 0 <= j < k ==> rs[j].Ok?;
    assert k == i;
  }

  /** A row whose computations all succeed collects exactly their values. */
  lemma CollectAll<T>(rs: seq<Result<T>>, vs: seq<T>)
    requires |vs| == |rs| && forall j :: 0 <= j < |rs| ==> rs[j] == Ok(vs[j])
    ensures Collect(rs) == Ok(vs)
  {
    var r := Collect(rs);
    assert r.Ok?;
    assert r.value == vs;
  }

  /** Collecting one more successful computation appends its value. */
  lemma CollectStep<T>(rs: seq<Result<T>>, i: nat, vs: seq<T>)
    requires i < |rs| && Collect(rs[..i]) == Ok(vs) && rs[i].Ok?
    ensures Collect(rs[..i + 1]) == Ok(vs + [rs[i].value])
  {
    var next := rs[..i + 1];
    assert forall j :: 0 <= j < i ==> next[j] == rs[..i][j];
    CollectAll(next, vs + [rs[i].value]);
  }
}

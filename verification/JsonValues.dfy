/** The values that the JSON encoders write, over strings of type S, and what both encoders' contracts share. */
module JsonValues {
  import opened Wrappers
  import opened Numbers

  datatype Value<S> =
    | Null
    | Bool(b: bool)
    | Integer(v: int)
    | Double(x: Number)
    | Str(s: S)
    | Arr(items: seq<Value<S>>)
    | Obj(entries: seq<Entry<S>>)

  datatype Entry<S> = Entry(key: S, value: Value<S>)

  datatype Failure =
    | IntegerOutOfRange
    | NegativeZeroNumber
    | NonFiniteNumber
    | NonScalarKey
    | NonScalarString
    | DuplicateKey

  /** 2^53 - 1 */
  const SAFE_INTEGER := 9007199254740991

  /** A member of an object, its value rendered. */
  datatype Rendered<S, T> = Rendered(key: S, text: Result<T, Failure>)

  type Ascii = c: int | 0 <= c < 128

  const QUOTE: Ascii := '"' as int
  const BACKSLASH: Ascii := '\\' as int
  const COLON: Ascii := ':' as int
  const COMMA: Ascii := ',' as int

  /** The code points, and code units, of an ASCII literal. */
  function Literal(s: string): (t: seq<Ascii>)
    ensures |t| == |s|
  {
    seq(|s|, i requires 0 <= i < |s| => if s[i] < 128 as char then s[i] as int else 0)
  }

  /** A hexadecimal digit, in lower case. */
  function HexDigit(n: int): Ascii
    requires 0 <= n < 16
  {
    if n < 10 then '0' as int + n else 'a' as int + (n - 10)
  }

  function KeysOf<S>(entries: seq<Entry<S>>): (keys: seq<S>)
    ensures |keys| == |entries|
  {
    seq(|entries|, i requires 0 <= i < |entries| => entries[i].key)
  }

  /** An entry at hand, in any order, holds a part of the object. */
  lemma {:induction false} ValueBelow<S>(value: Value<S>, entries: seq<Entry<S>>, sorted: seq<Entry<S>>, i: nat)
    requires value == Obj(entries) && multiset(sorted) == multiset(entries) && i < |sorted|
    ensures (value decreases to sorted[i].value)
  {
    assert sorted[i] in multiset(entries);
    var k :| 0 <= k < |entries| && entries[k] == sorted[i];
  }

  // ---------- results in a row ----------

  /** All values, or the first error. */
  function Collect<T>(rs: seq<Result<T, Failure>>): (r: Result<seq<T>, Failure>)
    ensures r.Ok? ==> |r.value| == |rs|
  {
    if rs == [] then Ok([])
    else match rs[0]
      case Err(e) => Err(e)
      case Ok(x) =>
        match Collect(rs[1..])
        case Err(e) => Err(e)
        case Ok(xs) => Ok([x] + xs)
  }

  lemma {:induction false} CollectExactly<T>(rs: seq<Result<T, Failure>>)
    ensures Collect(rs).Ok? <==> forall i :: 0 <= i < |rs| ==> rs[i].Ok?
    ensures Collect(rs).Ok? ==> forall i :: 0 <= i < |rs| ==> rs[i] == Ok(Collect(rs).value[i])
  {
    if rs != [] {
      CollectExactly(rs[1..]);
      assert forall i :: 0 <= i < |rs| - 1 ==> rs[i + 1] == rs[1..][i];
      if rs[0].Ok? && Collect(rs).Ok? {
        assert Collect(rs).value[1..] == Collect(rs[1..]).value;
      }
      if forall i :: 0 <= i < |rs| ==> rs[i].Ok? {
        assert rs[0].Ok?;
      } else {
        var i :| 0 <= i < |rs| && !rs[i].Ok?;
        assert i == 0 || rs[1..][i - 1] == rs[i];
      }
    }
  }

  lemma {:induction false} CollectOne<T>(rs: seq<Result<T, Failure>>)
    requires |rs| == 1 && rs[0].Ok?
    ensures Collect(rs) == Ok([rs[0].value])
  {
    var none := rs[1..];
    assert none == [];
    assert Collect(rs) == Ok([rs[0].value] + Collect(none).value);
    assert [rs[0].value] + Collect(none).value == [rs[0].value];
  }

  /** What is collected does not change later: the next error, or one more value. */
  lemma {:induction false} CollectStep<T>(rs: seq<Result<T, Failure>>, i: nat)
    requires i < |rs| && Collect(rs[..i]).Ok?
    ensures rs[i].Err? ==> Collect(rs) == Err(rs[i].error)
    ensures rs[i].Ok? ==> Collect(rs[..i + 1]) == Ok(Collect(rs[..i]).value + [rs[i].value])
  {
    if i == 0 {
      if rs[0].Ok? {
        CollectOne(rs[..1]);
        assert rs[..i] == [];
        assert Collect(rs[..i]).value + [rs[i].value] == [rs[i].value];
      } else {
        assert Collect(rs) == Err(rs[0].error);
      }
    } else {
      assert rs[..i][1..] == rs[1..][..i - 1];
      assert rs[..i + 1][1..] == rs[1..][..i];
      CollectStep(rs[1..], i - 1);
      assert rs[1..][i - 1] == rs[i] && rs[..i][0] == rs[0] == rs[..i + 1][0];
      if rs[i].Ok? {
        var xs := Collect(rs[1..][..i - 1]).value;
        assert [rs[0].value] + (xs + [rs[i].value]) == [rs[0].value] + xs + [rs[i].value];
      }
    }
  }

  function Joined<C>(parts: seq<seq<C>>, separator: seq<C>): seq<C> {
    if parts == [] then []
    else if |parts| == 1 then parts[0]
    else parts[0] + separator + Joined(parts[1..], separator)
  }

  function MapOk<A, B>(f: A -> B, r: Result<A, Failure>): Result<B, Failure> {
    match r
    case Ok(x) => Ok(f(x))
    case Err(e) => Err(e)
  }
}

/** What a parser gives: a value and the text left, an error, or something the model leaves out. */
module Parsing {
  import opened Bytes
  import opened Wrappers

  datatype Parse<+T> = Ok(value: T, rest: Text) | Err | Beyond

  /** A list parsed after the items already read. */
  function After<T>(items: seq<T>, p: Parse<seq<T>>): (r: Parse<seq<T>>)
    ensures r.Ok? <==> p.Ok?
    ensures p.Ok? ==> r == Ok(items + p.value, p.rest)
  {
    match p
    case Ok(more, rest) => Ok(items + more, rest)
    case Err => Err
    case Beyond => Beyond
  }

  lemma AfterNone<T>(p: Parse<seq<T>>)
    ensures After([], p) == p
  {
    if p.Ok? {
      assert [] + p.value == p.value;
    }
  }

  lemma AfterOne<T>(xs: seq<T>, x: T, p: Parse<seq<T>>)
    ensures After(xs + [x], p) == After(xs, After([x], p))
    ensures After(xs + [x], Ok([], [])) == After(xs, Ok([x], []))
  {
    if p.Ok? {
      assert xs + [x] + p.value == xs + ([x] + p.value);
    }
    assert xs + [x] + [] == xs + [x];
  }

  lemma AfterEmpty<T>(xs: seq<T>, rest: Text)
    ensures After(xs, Ok([], rest)) == Ok(xs, rest)
  {
    assert xs + [] == xs;
  }

  /** A method did what the functions say: the value, and the text left after it. */
  predicate Agrees<T(==)>(p: Parse<T>, v: Option<T>, left: Text) {
    match p
    case Ok(x, rest) => v == Some(x) && left == rest
    case _ => v == None
  }
}

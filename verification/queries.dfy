/**
  Optional query-string filters of the list endpoints: a parameter narrows
  the list only when it is present and non-empty (Python truthiness of the
  string), narrowing keeps the remaining rows in their order, and a
  parameter that does not convert to the key's type is a server error.
 */
module Queries {
  import opened Wrappers
  import opened Seqs

  /** `if param:` on `query_params.get(name)`. */
  predicate Given(param: Option<string>)
  {
    param.Some? && param.value != ""
  }

  /** A list endpoint's answer: the rows, or the server error a key that does not convert causes. */
  datatype Listing<T> = Rows(rows: seq<T>) | ServerError

  /**
    `qs.filter(field=param)` on a key column when the parameter is given,
    else `qs` untouched. Django first converts the parameter with the
    column's type (`convert` gives the canonical key text it denotes); a
    parameter that does not convert raises, and the view answers with a
    server error.
   */
  function NarrowKey<T(==,!new)>(base: seq<T>, param: Option<string>,
                                 convert: string -> Option<string>, key: T -> Option<string>): (r: Listing<T>)
    ensures !Given(param) ==> r == Rows(base)
    ensures Given(param) ==> (r.ServerError? <==> convert(param.value).None?)
    ensures Given(param) && r.Rows? ==> forall x :: x in r.rows <==> x in base && key(x) == convert(param.value)
    ensures Given(param) && r.Rows? ==>
              forall x {:trigger multiset(r.rows)[x]} ::
                multiset(r.rows)[x] == if key(x) == convert(param.value) then multiset(base)[x] else 0
    ensures r.Rows? ==> IsSubseq(r.rows, base)
  {
    if !Given(param) then
      SubseqRefl(base);
      Rows(base)
    else
      match convert(param.value)
      case None => ServerError
      case Some(k) =>
        FilterSubseq(base, x => key(x) == Some(k));
        FilterMultiset(base, x => key(x) == Some(k));
        Rows(Filter(base, x => key(x) == Some(k)))
  }

  /** A second filter applied to the rows of a first; a server error stays one. */
  function AndThen<T(==,!new)>(l: Listing<T>, param: Option<string>,
                               convert: string -> Option<string>, key: T -> Option<string>): Listing<T>
  {
    match l
    case ServerError => ServerError
    case Rows(rows) => NarrowKey(rows, param, convert, key)
  }

  /** Two key filters commute: the rows and the server-error case do not depend on their order. */
  lemma NarrowKeyCommutes<T(!new)>(base: seq<T>,
                                   p: Option<string>, cp: string -> Option<string>, kp: T -> Option<string>,
                                   q: Option<string>, cq: string -> Option<string>, kq: T -> Option<string>)
    ensures AndThen(NarrowKey(base, p, cp, kp), q, cq, kq) == AndThen(NarrowKey(base, q, cq, kq), p, cp, kp)
  {
    if Given(p) && Given(q) && cp(p.value).Some? && cq(q.value).Some? {
      FilterFilterCommute(base, x => kp(x) == cp(p.value), x => kq(x) == cq(q.value));
    }
  }

  lemma {:induction false} FilterFilterCommute<T(!new)>(s: seq<T>, f: T -> bool, g: T -> bool)
    ensures Filter(Filter(s, f), g) == Filter(Filter(s, g), f)
    decreases |s|
  {
    if |s| > 0 {
      FilterFilterCommute(s[1..], f, g);
      assert s == [s[0]] + s[1..];
      FilterCons(s[0], s[1..], f);
      FilterCons(s[0], s[1..], g);
      var ff := Filter(s[1..], f);
      var gg := Filter(s[1..], g);
      if f(s[0]) { FilterCons(s[0], ff, g); }
      if g(s[0]) { FilterCons(s[0], gg, f); }
    }
  }
}

/**
 SQL's three-valued logic: the truth values of PostgreSQL conditions over
 nullable columns. A NULL column is None. A row passes a WHERE clause or a
 policy only when the condition is True, never when it is Unknown.
 */
module Sql {
  import opened Common

  datatype Tri = True | False | Unknown

  function Known(b: bool): Tri {
    if b then True else False
  }

  function And(a: Tri, b: Tri): Tri {
    if a == False || b == False then False
    else if a == True && b == True then True
    else Unknown
  }

  function Or(a: Tri, b: Tri): Tri {
    if a == True || b == True then True
    else if a == False && b == False then False
    else Unknown
  }

  function Not(a: Tri): Tri {
    match a
    case True => False
    case False => True
    case Unknown => Unknown
  }

  function Eq<T(==)>(a: Option<T>, b: Option<T>): Tri {
    if a.None? || b.None? then Unknown else Known(a.value == b.value)
  }

  /** The IN operator over a list of non-null constants. */
  function In<T(==)>(a: Option<T>, constants: seq<T>): Tri {
    if a.None? then Unknown else Known(a.value in constants)
  }

  /** False, Unknown and True in order: AND is the minimum, OR the maximum, NOT reverses them. */
  function Rank(a: Tri): int {
    match a
    case False => 0
    case Unknown => 1
    case True => 2
  }

  lemma KleeneLogic(a: Tri, b: Tri)
    ensures Rank(And(a, b)) == if Rank(a) < Rank(b) then Rank(a) else Rank(b)
    ensures Rank(Or(a, b)) == if Rank(a) < Rank(b) then Rank(b) else Rank(a)
    ensures Rank(Not(a)) == 2 - Rank(a)
  {
  }

  /** A comparison with NULL is unknown, any other is known. */
  lemma NullsAreUnknown<T>(a: Option<T>, b: Option<T>, constants: seq<T>)
    ensures Eq(a, b) == Unknown <==> a == None || b == None
    ensures Eq(a, b) == True <==> a == b && a != None
    ensures In(a, constants) == Unknown <==> a == None
    ensures In(a, constants) == True <==> exists c :: c in constants && a == Some(c)
  {
  }
}

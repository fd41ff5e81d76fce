/** Shared vocabulary: Java's failure modes, 32-bit ints, and small sequence helpers. */
module Common {

  /** The Java exceptions the modelled code can raise (and mostly prints and swallows). */
  datatype Exception =
    | NumberFormat        // Integer.parseInt on a malformed number
    | IndexOutOfBounds    // array / list / substring index past the end
    | NullPointer         // a method called on a null reference
    | ClassCast           // a downcast to the wrong attribute class
    | NoRow               // sqlite-jdbc: reading a column of an empty result set
    | NoTable             // SQL: a statement naming a table that does not exist
    | NoColumn            // SQL: a statement naming a column the table does not have
    | MissingId           // a tag without an id attribute (see README, "Left out")

  datatype Option<+T> = None | Some(value: T)

  datatype Result<+T> = Ok(value: T) | Fail(exc: Exception)

  /** Java's `int` range. */
  const INT_MIN: int := -0x8000_0000
  const INT_MAX: int := 0x7fff_ffff

  type Int32 = x: int | INT_MIN <= x <= INT_MAX

  lemma AppendAssoc<T>(a: seq<T>, b: seq<T>, c: seq<T>)
    ensures (a + b) + c == a + (b + c)
  {
  }

  /** The elements of `s` that satisfy `p`, in order (a SQL `where` clause). */
  function Filter<T>(s: seq<T>, p: T -> bool): (r: seq<T>)
    ensures |r| <= |s|
    ensures forall i :: 0 <= i < |r| ==> r[i] in s && p(r[i])
    ensures forall i :: 0 <= i < |s| && p(s[i]) ==> s[i] in r
  {
    if |s| == 0 then []
    else if p(s[0]) then [s[0]] + Filter(s[1..], p)
    else Filter(s[1..], p)
  }

  lemma {:induction false} FilterAppend<T>(a: seq<T>, b: seq<T>, p: T -> bool)
    ensures Filter(a + b, p) == Filter(a, p) + Filter(b, p)
  {
    if |a| > 0 {
      assert (a + b)[1..] == a[1..] + b;
      FilterAppend(a[1..], b, p);
    } else {
      assert a + b == b;
    }
  }

  /** The elements of `s` with later repetitions removed (SQL `select distinct`). */
  function Distinct<T(==)>(s: seq<T>): (r: seq<T>)
    ensures forall i :: 0 <= i < |r| ==> r[i] in s
    ensures forall i :: 0 <= i < |s| ==> s[i] in r
    ensures forall i, j :: 0 <= i < j < |r| ==> r[i] != r[j]
    decreases |s|
  {
    if |s| == 0 then []
    else
      var rest := Distinct(s[..|s| - 1]);
      if s[|s| - 1] in rest then rest else rest + [s[|s| - 1]]
  }

  /** Length of the longest string in `ss` (0 for none). */
  function MaxLen(ss: seq<string>): (m: nat)
    ensures forall s :: s in ss ==> |s| <= m
  {
    if |ss| == 0 then 0
    else
      var rest := MaxLen(ss[1..]);
      assert forall s :: s in ss ==> s == ss[0] || s in ss[1..];
      if |ss[0]| > rest then |ss[0]| else rest
  }
}

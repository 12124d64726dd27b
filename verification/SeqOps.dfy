/** Insertion into and removal from a list at a position. */
module SeqOps {

  function InsertAt<T>(s: seq<T>, j: int, x: T): (r: seq<T>)
    requires 0 <= j <= |s|
  {
    seq(|s| + 1, l requires 0 <= l <= |s| => if l < j then s[l] else if l == j then x else s[l-1])
  }

  function RemoveAt<T>(s: seq<T>, j: int): (r: seq<T>)
    requires 0 <= j < |s|
  {
    seq(|s| - 1, l requires 0 <= l < |s| - 1 => if l < j then s[l] else s[l+1])
  }

  lemma InsertSlices<T>(s: seq<T>, j: int, x: T)
    requires 0 <= j <= |s|
    ensures InsertAt(s, j, x) == s[..j] + [x] + s[j..]
  {
  }

  lemma RemoveSlices<T>(s: seq<T>, j: int)
    requires 0 <= j < |s|
    ensures RemoveAt(s, j) == s[..j] + s[j+1..]
  {
  }

  lemma InsertRemove<T>(s: seq<T>, j: int, x: T)
    requires 0 <= j <= |s|
    ensures RemoveAt(InsertAt(s, j, x), j) == s
  {
  }

  lemma RemoveInsert<T>(s: seq<T>, j: int)
    requires 0 <= j < |s|
    ensures InsertAt(RemoveAt(s, j), j, s[j]) == s
  {
  }

  lemma InsertUpdate<T>(s: seq<T>, j: int, x: T, y: T)
    requires 0 <= j <= |s|
    ensures InsertAt(s, j, x)[j := y] == InsertAt(s, j, y)
  {
  }
}

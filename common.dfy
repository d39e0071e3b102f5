/**
 * Values shared by every component: the optional value used wherever the
 * application has `null`, the extracted comment record and the parsed
 * search term.
 */
module Common {

  /** `null` versus a present value. */
  datatype Option<+T> = None | Some(value: T)

  /**
   * One extracted comment. `date` is an instant in milliseconds since the
   * Unix epoch, or None when the date label could not be resolved.
   */
  datatype Entry = Entry(dateText: string, date: Option<int>, content: string)

  /** A search term; `isExact` marks a quoted phrase. */
  datatype SearchTerm = SearchTerm(term: string, isExact: bool)

  function Min(a: int, b: int): int { if a <= b then a else b }

  /** Concatenation regroups; stated generically, where it is cheap to prove. */
  lemma AppendAssociative<T>(a: seq<T>, b: seq<T>, c: seq<T>)
    ensures a + (b + c) == (a + b) + c
  {
  }

  lemma AppendEmpty<T>(a: seq<T>)
    ensures [] + a == a && a + [] == a
  {
  }
}

/**
 What a reader of text returns: what it has read and the text behind it, or None.  A loop
 that collects items is in the state "done so far, joined with what is still to be read".
 */
module Readers {
  import opened Options

  /** The items read so far, in front of those that are read behind them. */
  function Join<T>(done: seq<T>, r: Option<(seq<T>, string)>): Option<(seq<T>, string)> {
    match r
    case None => None
    case Some((items, rest)) => Some((done + items, rest))
  }

  lemma JoinGrows<T>(done: seq<T>, item: T, r: Option<(seq<T>, string)>)
    ensures Join(done, Join([item], r)) == Join(done + [item], r)
  {
    if r.Some? {
      assert done + ([item] + r.value.0) == done + [item] + r.value.0;
    }
  }

  lemma JoinNothing<T>(r: Option<(seq<T>, string)>)
    ensures Join([], r) == r
  {
    if r.Some? {
      assert [] + r.value.0 == r.value.0;
    }
  }
}

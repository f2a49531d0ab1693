/**
 * `lib/jsontime.go`: instants written as RFC 3339 text without a fraction.
 *
 * An instant is a number of nanoseconds since Go's zero time, which the registry uses as its
 * "epoch".  The text of an instant names a whole second, so it is modelled by that second's
 * number; everything below one second is lost when an instant is marshalled.
 */
module JsonTime {
  type Instant = int

  const SECOND: int := 1_000_000_000
  const EPOCH: Instant := 0

  function Marshal(t: Instant): (text: int) {
    t / SECOND
  }

  function Unmarshal(text: int): (t: Instant) {
    text * SECOND
  }

  /** What is left of an instant after it went through a file. */
  function Stored(t: Instant): (r: Instant)
    ensures r <= t < r + SECOND
    ensures Marshal(r) == Marshal(t)
    ensures t == EPOCH ==> r == EPOCH
  {
    Unmarshal(Marshal(t))
  }

  ghost predicate IsWhole(t: Instant) {
    Stored(t) == t
  }

  /** What a file can hold are the whole seconds. */
  lemma WholeSeconds(t: Instant)
    ensures IsWhole(t) <==> t % SECOND == 0
  {
    assert t == t / SECOND * SECOND + t % SECOND;
  }

  lemma StoredOnce(t: Instant)
    ensures IsWhole(Stored(t))
    ensures IsWhole(t) <==> exists text :: t == Unmarshal(text)
  {
    assert Stored(t) == Unmarshal(Marshal(t));
    if text :| t == Unmarshal(text) {
      assert Marshal(t) == text;
    }
  }
}

/** The one call into Python's `random` module that the drawing procedure makes. */
module PyRandom {
  import opened Wrappers

  /**
   * `random.randint(a, b)`: some integer of the closed range `[a, b]`, or a
   * `ValueError` (here `None`) when the range is empty. Which integer is
   * chosen is left open, so every property proved about a caller holds for
   * every sequence of choices.
   */
  method RandInt(a: int, b: int) returns (r: Option<int>)
    ensures r.None? <==> b < a
    ensures r.Some? ==> a <= r.value <= b
  {
    if b < a {
      r := None;
    } else {
      var x :| a <= x <= b;
      r := Some(x);
    }
  }
}

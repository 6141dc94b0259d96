/**
 * The window of the data list that update_plot draws: the slice
 * data[-20000:], that is the latest 20000 measurements, or all of them
 * when there are fewer.
 */
module PlotWindow {
  /** The number of points drawn (the inline comment in the source says 10000; the code uses 20000). */
  const Limit: nat := 20000

  function Min(a: nat, b: nat): nat
  {
    if a <= b then a else b
  }

  /** data[-Limit:]: a negative start past the front of the list is clamped to 0. */
  function Window<T>(data: seq<T>): (w: seq<T>)
    ensures |w| == Min(|data|, Limit)
    ensures w == data[|data| - |w|..]
  {
    if |data| <= Limit then data else data[|data| - Limit..]
  }

  /** Drawing the window again changes nothing. */
  lemma WindowIdempotent<T>(data: seq<T>)
    ensures Window(Window(data)) == Window(data)
  {
  }

  /**
   * The window after one more measurement is the previous window with the
   * new point appended and, once it is full, its oldest point dropped.
   */
  lemma WindowSlides<T>(data: seq<T>, x: T)
    ensures Window(data + [x]) == Window(Window(data) + [x])
    ensures |data| >= Limit ==> Window(data + [x]) == Window(data)[1..] + [x]
    ensures |data| < Limit ==> Window(data + [x]) == data + [x]
  {
  }

  /** A point is drawn exactly when fewer than Limit points arrived after it. */
  lemma WindowMembers<T>(data: seq<T>, i: nat)
    requires i < |data|
    ensures |data| - i <= Limit <==> (|data| - i <= |Window(data)| && Window(data)[|Window(data)| - (|data| - i)] == data[i])
  {
  }
}

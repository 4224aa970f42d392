/**
 * Two small boards worked through one generation: a lone cell dies, and a
 * dead cell next to exactly three live ones is born.
 */
module Scenarios {
  import opened Life

  /** A 3 x 3 board whose only live cell is the centre (1, 1). */
  function Lone(): Grid
  {
    [[false, false, false],
     [false, true,  false],
     [false, false, false]]
  }

  /** A 3 x 3 board with (0, 0), (0, 1) and (1, 0) alive. */
  function Corner(): Grid
  {
    [[true,  true,  false],
     [true,  false, false],
     [false, false, false]]
  }

  /** The lone centre cell has no live neighbour, so it dies. */
  lemma LoneCellDies()
    ensures Neighbours(Lone(), 1, 1) == 0
    ensures Lone()[1][1] && !NextState(Lone())[1][1]
  {
  }

  /** The dead centre has exactly three live neighbours, so it is born. */
  lemma CentreIsBorn()
    ensures Neighbours(Corner(), 1, 1) == 3
    ensures !Corner()[1][1] && NextState(Corner())[1][1]
  {
  }
}

/** A concrete walk over three discovered images, `car.png`, `boat.jpg` and
    `room.jpg`, all in the input root. `boat.jpg` raises at its fourth
    variant and the copy of `room.jpg` fails; each failure stays with its
    file. */
module Scenario {
  import opened Paths
  import opened Images
  import opened Augment
  import opened Walker
  import opened WalkerProperties

  const Car := Entry([], "car.png", true, true, true, Some(Image("RGBA", 640, 480, Pixels(0))), None)
  const Boat := Entry([], "boat.jpg", true, true, true, Some(Image("RGB", 64, 48, Pixels(1))), Some(3))
  const Room := Entry([], "room.jpg", true, true, false, Some(Image("L", 800, 600, Pixels(2))), None)

  /** With copying on: two originals, since the copy of `room.jpg` fails,
      and 8 + 3 + 8 variants; with copying off: no original and the same
      variants. */
  lemma ScenarioWalk(input: Path, output: Path)
    ensures Walk(Config(input, output, true), [Car, Boat, Room]).raised == false
    ensures Walk(Config(input, output, true), [Car, Boat, Room]).originals == 2
    ensures Walk(Config(input, output, true), [Car, Boat, Room]).augmented == 19
    ensures Walk(Config(input, output, false), [Car, Boat, Room]).originals == 0
    ensures Walk(Config(input, output, false), [Car, Boat, Room]).augmented == 19
  {
    var images := [Car, Boat, Room];
    assert AllDirsMade(images);
    assert images[..2] == [Car, Boat] && images[..2][..1] == [Car] && [Car][..0] == [];
    assert WrittenCount(Car) == 8 && WrittenCount(Boat) == 3 && WrittenCount(Room) == 8;
    assert WrittenTotal([Car]) == 8;
    assert WrittenTotal([Car, Boat]) == 11;
    assert WrittenTotal(images) == 19;
    assert CopiedTotal(Config(input, output, true), [Car]) == 1;
    assert CopiedTotal(Config(input, output, true), [Car, Boat]) == 2;
    assert CopiedTotal(Config(input, output, true), images) == 2;
    assert CopiedTotal(Config(input, output, false), [Car]) == 0;
    assert CopiedTotal(Config(input, output, false), [Car, Boat]) == 0;
    assert CopiedTotal(Config(input, output, false), images) == 0;
    WalkRaised(Config(input, output, true), images);
    WalkCounters(Config(input, output, true), images);
    WalkCounters(Config(input, output, false), images);
  }
}

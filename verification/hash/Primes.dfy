// The table of bucket counts and the choice from it.
module Primes {
  const COUNT: nat := 244
  const LAST: int := 1725587117

  // Six entries of the table.
  datatype Row = Row(a: int, b: int, c: int, d: int, e: int, f: int)

  function RowAt(r: nat): Row {
    match r
    case 0 => Row(2, 3, 5, 7, 11, 13)
    case 1 => Row(17, 19, 23, 29, 31, 37)
    case 2 => Row(41, 43, 47, 53, 59, 61)
    case 3 => Row(67, 71, 73, 79, 83, 89)
    case 4 => Row(97, 103, 109, 113, 127, 137)
    case 5 => Row(139, 149, 157, 167, 179, 193)
    case 6 => Row(199, 211, 227, 241, 257, 277)
    case 7 => Row(293, 313, 337, 359, 383, 409)
    case 8 => Row(439, 467, 503, 541, 577, 619)
    case 9 => Row(661, 709, 761, 823, 887, 953)
    case 10 => Row(1031, 1109, 1193, 1289, 1381, 1493)
    case 11 => Row(1613, 1741, 1879, 2029, 2179, 2357)
    case 12 => Row(2549, 2753, 2971, 3209, 3469, 3739)
    case 13 => Row(4027, 4349, 4703, 5087, 5503, 5953)
    case 14 => Row(6427, 6949, 7517, 8123, 8783, 9497)
    case 15 => Row(10273, 11113, 12011, 12983, 14033, 15173)
    case 16 => Row(16411, 17749, 19183, 20753, 22447, 24281)
    case 17 => Row(26267, 28411, 30727, 33223, 35933, 38873)
    case 18 => Row(42043, 45481, 49201, 53201, 57557, 62233)
    case 19 => Row(67307, 72817, 78779, 85229, 92203, 99733)
    case 20 => Row(107897, 116731, 126271, 136607, 147793, 159871)
    case 21 => Row(172933, 187091, 202409, 218971, 236897, 256279)
    case 22 => Row(277261, 299951, 324503, 351061, 379787, 410857)
    case 23 => Row(444487, 480881, 520241, 562841, 608903, 658753)
    case 24 => Row(712697, 771049, 834181, 902483, 976369, 1056323)
    case 25 => Row(1142821, 1236397, 1337629, 1447153, 1565659, 1693859)
    case 26 => Row(1832561, 1982627, 2144977, 2320627, 2510653, 2716249)
    case 27 => Row(2938679, 3179303, 3439651, 3721303, 4026031, 4355707)
    case 28 => Row(4712381, 5098259, 5515729, 5967347, 6456007, 6984629)
    case 29 => Row(7556579, 8175383, 8844859, 9569143, 10352717, 11200489)
    case 30 => Row(12117689, 13109983, 14183539, 15345007, 16601593, 17961079)
    case 31 => Row(19431899, 21023161, 22744717, 24607243, 26622317, 28802401)
    case 32 => Row(31160981, 33712729, 36473443, 39460231, 42691603, 46187573)
    case 33 => Row(49969847, 54061849, 58488943, 63278561, 68460391, 74066549)
    case 34 => Row(80131819, 86693767, 93793069, 101473717, 109783337, 118773397)
    case 35 => Row(128499677, 139022417, 150406843, 162723577, 176048909, 190465427)
    case 36 => Row(206062531, 222936881, 241193053, 260944219, 282312799, 305431229)
    case 37 => Row(330442829, 357502601, 386778277, 418451333, 452718089, 489790921)
    case 38 => Row(529899637, 573292817, 620239453, 671030513, 725980837, 785430967)
    case _ => Row(849749479, 919334987, 994618837, 1076067617, 1164186217, 1259520799)
  }

  function Entry(row: Row, c: nat): int {
    match c
    case 0 => row.a
    case 1 => row.b
    case 2 => row.c
    case 3 => row.d
    case 4 => row.e
    case _ => row.f
  }

  // The four entries after the last full row.
  function Tail(c: nat): int {
    match c
    case 0 => 1362662261
    case 1 => 1474249943
    case 2 => 1594975441
    case _ => 1725587117
  }

  // The i-th entry of the table.
  function Prime(i: nat): int {
    if i < 240 then Entry(RowAt(i / 6), i % 6) else Tail(i - 240)
  }

  lemma RowsRise(r: nat)
    requires r < 39
    ensures RowAt(r).f < RowAt(r + 1).a
  {
  }

  lemma TailRises(c: nat)
    requires c < 3
    ensures RowAt(39).f < Tail(0) && Tail(c) < Tail(c + 1)
  {
  }

  lemma EntryRises(r: nat, c: nat)
    requires r < 40 && c < 5
    ensures Entry(RowAt(r), c) < Entry(RowAt(r), c + 1)
  {
  }

  lemma Step(i: nat)
    requires i < COUNT - 1
    ensures Prime(i) < Prime(i + 1)
  {
    hide RowAt, Tail;
    if i >= 239 {
      TailRises(if i == 239 then 0 else i - 240);
    } else {
      var r, c := i / 6, i % 6;
      if c < 5 {
        assert (i + 1) / 6 == r && (i + 1) % 6 == c + 1;
        EntryRises(r, c);
      } else {
        assert (i + 1) / 6 == r + 1 && (i + 1) % 6 == 0;
        RowsRise(r);
      }
    }
  }

  lemma {:induction false} Increasing(i: nat, j: nat)
    requires i < j < COUNT
    ensures Prime(i) < Prime(j)
  {
    hide Prime;
    Step(j - 1);
    if i < j - 1 {
      Increasing(i, j - 1);
    }
  }

  lemma Ends()
    ensures Prime(0) == 2 && Prime(COUNT - 1) == LAST
  {
  }

  // The least table entry that is at least `number`, or the last one if there is none.
  ghost predicate Closest(number: int, p: int) {
    && (exists i :: 0 <= i < COUNT && p == Prime(i))
    && (forall i :: 0 <= i < COUNT && Prime(i) >= number ==> p <= Prime(i))
    && (if number <= LAST then number <= p else p == LAST)
  }

  lemma OnlyClosest(number: int, p: int)
    requires Closest(number, p)
    ensures forall q :: Closest(number, q) ==> q == p
  {
    hide Prime;
  }

  lemma Least(i: nat)
    requires i < COUNT
    ensures 2 <= Prime(i) <= LAST && forall j :: i <= j < COUNT ==> Prime(i) <= Prime(j)
  {
    hide Prime;
    Ends();
    if i > 0 {
      Increasing(0, i);
    }
    forall j | i < j < COUNT ensures Prime(i) < Prime(j) {
      Increasing(i, j);
    }
  }

  // The scan for two neighbours with `number` between them.
  method ClosestPrime(number: nat) returns (p: int)
    ensures Closest(number, p) && 2 <= p <= LAST
  {
    hide Prime;
    Ends();
    p := Prime(0);
    if number < p {
      Least(0);
      return;
    }
    for i := 0 to COUNT - 1
      invariant Prime(i) <= number && (i > 0 ==> Prime(i) < number)
    {
      var a, b := Prime(i), Prime(i + 1);
      if number >= a && number <= b {
        p := if number == a then a else b;
        ClosestAt(number, i);
        return;
      }
    }
    p := Prime(COUNT - 1);
    Least(COUNT - 1);
    Below(number, COUNT - 1);
  }

  // Nothing up to the i-th entry is large enough.
  lemma Below(number: int, i: nat)
    requires i < COUNT && Prime(i) < number
    ensures forall j :: 0 <= j <= i ==> Prime(j) < number
  {
    hide Prime;
    forall j: nat | j < i ensures Prime(j) < number {
      Increasing(j, i);
    }
  }

  lemma ClosestAt(number: int, i: nat)
    requires i < COUNT - 1 && Prime(i) <= number <= Prime(i + 1)
    ensures var p := if number == Prime(i) then Prime(i) else Prime(i + 1); Closest(number, p) && 2 <= p <= LAST
  {
    hide Prime;
    Least(i);
    Least(i + 1);
    if number != Prime(i) {
      Below(number, i);
    }
  }
}

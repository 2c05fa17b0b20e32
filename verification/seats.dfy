/**
 * The seat-number generator of the reservation workflow: the ticket's row
 * (its 1-based position among the flight's tickets), zero-padded to at least
 * two digits, followed by a letter that cycles A to F over the batch.
 */
module Seats {
  import opened Wrappers
  import opened Decimal

  /** The letter of the `i`-th ticket of a batch: `A` plus `i` modulo 6. */
  function SeatLetter(i: nat): (c: char)
    ensures 'A' <= c <= 'F'
    ensures c as int - 'A' as int == i % 6
  {
    (65 + i % 6) as char
  }

  /** The seat number of the `i`-th ticket of a batch, placed in row `row`. */
  function SeatNumber(row: nat, i: nat): string {
    PadZeros(NatToString(row), 2) + [SeatLetter(i)]
  }

  /** Reads the row back from a seat number: everything before the last character, as a numeral. */
  function SeatRow(seat: string): Option<nat> {
    if |seat| >= 3 && AllDigits(seat[..|seat| - 1]) then Some(FromDigits(seat[..|seat| - 1])) else None
  }

  /** A seat number is at least two digits and a letter, and its digits give back the row. */
  lemma SeatNumberShape(row: nat, i: nat)
    ensures |SeatNumber(row, i)| >= 3
    ensures |SeatNumber(row, i)| == if row < 100 then 3 else |NatToString(row)| + 1
    ensures SeatNumber(row, i)[|SeatNumber(row, i)| - 1] == SeatLetter(i)
    ensures SeatRow(SeatNumber(row, i)) == Some(row)
  {
    var digits := PadZeros(NatToString(row), 2);
    var s := SeatNumber(row, i);
    assert s[..|s| - 1] == digits;
    assert AllDigits(digits) && FromDigits(digits) == row by {
      PaddedRoundTrip(row, 2);
    }
    assert |digits| == if row < 100 then 2 else |NatToString(row)| by {
      PaddedLength(row);
    }
  }

  lemma PaddedLength(row: nat)
    ensures |PadZeros(NatToString(row), 2)| == if row < 100 then 2 else |NatToString(row)|
  {
    if row < 100 {
      NatToStringLength(row, 2);
    } else {
      assert |NatToString(row)| >= 3 by {
        if |NatToString(row)| <= 2 {
          FromDigitsOfNatToString(row);
          DigitsBelow(NatToString(row));
        }
      }
    }
  }

  lemma {:induction false} DigitsBelow(s: string)
    requires AllDigits(s) && |s| <= 2
    ensures FromDigits(s) < 100
  {
    if s != [] {
      DigitsBelow(s[..|s| - 1]);
      if |s| == 2 {
        assert FromDigits(s[..1]) < 10 by {
          assert s[..1][..0] == [];
        }
      }
    }
  }

  /** Two seat numbers are equal only when their rows are, and their letters. */
  lemma SeatNumberInjective(row1: nat, i1: nat, row2: nat, i2: nat)
    requires SeatNumber(row1, i1) == SeatNumber(row2, i2)
    ensures row1 == row2
    ensures i1 % 6 == i2 % 6
  {
    SeatNumberShape(row1, i1);
    SeatNumberShape(row2, i2);
  }

  /** Six seats booked together on an empty flight take six rows, one letter each. */
  lemma SixOnEmptyFlight()
    ensures SeatNumber(1, 0) == "01A" && SeatNumber(2, 1) == "02B" && SeatNumber(3, 2) == "03C"
    ensures SeatNumber(4, 3) == "04D" && SeatNumber(5, 4) == "05E" && SeatNumber(6, 5) == "06F"
    ensures SeatNumber(7, 6) == "07A"
  {
  }
}

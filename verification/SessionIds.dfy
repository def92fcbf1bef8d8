/** Session and message ids (`sessionManager.cpp`). */
module SessionIds {
  import opened Bytes

  const WIDTH: nat := 16
  const UINT64: nat := 0x1_0000_0000_0000_0000

  function Digit(d: nat): (c: char)
    requires d < 16
  {
    "0123456789abcdef"[d]
  }

  lemma DigitsAscend(a: nat, b: nat)
    requires a < 16 && b < 16
    ensures a < b <==> Digit(a) < Digit(b)
  {
  }

  /** `std::hex`: as few digits as the number needs. */
  function Hex(n: nat): (s: string)
    ensures s != ""
  {
    if n < 16 then [Digit(n)] else Hex(n / 16) + [Digit(n % 16)]
  }

  /** `std::setfill('0') << std::setw(width)`: pads on the left, never truncates. */
  function Padded(s: string, width: nat): string
    decreases width - |s|
  {
    if |s| >= width then s else Padded("0" + s, width)
  }

  /** Exactly `width` digits. */
  function Fixed(n: nat, width: nat): (s: string)
    ensures |s| == width
  {
    if width == 0 then "" else Fixed(n / 16, width - 1) + [Digit(n % 16)]
  }

  function Power(width: nat): (p: nat)
    ensures p > 0
  {
    if width == 0 then 1 else 16 * Power(width - 1)
  }

  lemma PowerIsUint64()
    ensures Power(WIDTH) == UINT64
  {
    assert Power(4) == 0x1_0000;
    assert Power(8) == 0x1_0000_0000;
    assert Power(12) == 0x1_0000_0000_0000;
  }

  function Zeros(n: nat): string {
    if n == 0 then "" else "0" + Zeros(n - 1)
  }

  lemma {:induction false} PaddedIsZeros(s: string, width: nat)
    requires |s| <= width
    ensures Padded(s, width) == Zeros(width - |s|) + s
    decreases width - |s|
  {
    if |s| < width {
      PaddedIsZeros("0" + s, width);
      ZerosEitherEnd(width - |s| - 1);
      assert Zeros(width - |s| - 1) + ("0" + s) == (Zeros(width - |s| - 1) + "0") + s;
    }
  }

  lemma {:induction false} ZerosEitherEnd(n: nat)
    ensures Zeros(n) + "0" == "0" + Zeros(n)
  {
    if n > 0 {
      ZerosEitherEnd(n - 1);
      assert "0" + Zeros(n - 1) + "0" == "0" + (Zeros(n - 1) + "0");
    }
  }

  lemma {:induction false} FixedOfZero(width: nat)
    ensures Fixed(0, width) == Zeros(width)
  {
    if width > 0 {
      FixedOfZero(width - 1);
      ZerosEitherEnd(width - 1);
    }
  }

  lemma Associate(a: string, b: string, c: string)
    ensures a + (b + c) == (a + b) + c
  {
  }

  lemma DropDigit(n: nat, width: nat)
    requires width > 0 && 16 <= n < Power(width)
    ensures width > 1 && n / 16 < Power(width - 1)
  {
    assert Power(1) == 16;
  }

  /** Padding the minimal digits to the width gives the fixed-width form, for every number that fits. */
  lemma {:induction false} PaddedHexIsFixed(n: nat, width: nat)
    requires width > 0 && n < Power(width)
    ensures |Hex(n)| <= width && Zeros(width - |Hex(n)|) + Hex(n) == Fixed(n, width)
  {
    hide Zeros, Power, Digit;
    if n < 16 {
      FixedOfZero(width - 1);
    } else {
      DropDigit(n, width);
      PaddedHexIsFixed(n / 16, width - 1);
      var h := Hex(n / 16);
      Associate(Zeros(width - 1 - |h|), h, [Digit(n % 16)]);
    }
  }

  // ---- Order ----

  /** Lexicographic order on strings. */
  ghost predicate LexLess(a: string, b: string) {
    || (|a| < |b| && a == b[..|a|])
    || exists k :: DifferAt(a, b, k)
  }

  predicate DifferAt(a: string, b: string, k: int) {
    0 <= k < |a| && k < |b| && a[..k] == b[..k] && a[k] < b[k]
  }

  lemma LexLessSnoc(a: string, b: string, x: char, y: char)
    requires |a| == |b|
    ensures LexLess(a + [x], b + [y]) <==> LexLess(a, b) || (a == b && x < y)
  {
    var (u, v) := (a + [x], b + [y]);
    if LexLess(u, v) {
      var k :| DifferAt(u, v, k);
      if k < |a| {
        assert u[..k] == a[..k] && v[..k] == b[..k];
        assert DifferAt(a, b, k);
      } else {
        assert u[..k] == a && v[..k] == b;
      }
    }
    if LexLess(a, b) {
      var k :| DifferAt(a, b, k);
      assert u[..k] == a[..k] && v[..k] == b[..k];
      assert DifferAt(u, v, k);
    } else if a == b && x < y {
      assert u[..|a|] == a && v[..|a|] == b;
      assert DifferAt(u, v, |a|);
    }
  }

  /** Fixed-width digits determine the number, and compare as the numbers do. */
  lemma {:induction false} FixedKeepsOrder(m: nat, n: nat, width: nat)
    requires m < Power(width) && n < Power(width)
    ensures Fixed(m, width) == Fixed(n, width) <==> m == n
    ensures LexLess(Fixed(m, width), Fixed(n, width)) <==> m < n
  {
    if width > 0 {
      var a, b := Fixed(m / 16, width - 1), Fixed(n / 16, width - 1);
      FixedKeepsOrder(m / 16, n / 16, width - 1);
      DigitsAscend(m % 16, n % 16);
      DigitsAscend(n % 16, m % 16);
      LexLessSnoc(a, b, Digit(m % 16), Digit(n % 16));
      SplitLast(a, b, Digit(m % 16), Digit(n % 16));
      assert m == 16 * (m / 16) + m % 16 && n == 16 * (n / 16) + n % 16;
    }
  }

  lemma SplitLast(a: string, b: string, x: char, y: char)
    requires |a| == |b|
    ensures a + [x] == b + [y] <==> a == b && x == y
  {
    if a + [x] == b + [y] {
      assert a == (a + [x])[..|a|] == (b + [y])[..|b|] == b;
      assert x == (a + [x])[|a|] == (b + [y])[|b|] == y;
    }
  }

  // ---- The ids ----

  /** The text of a 64-bit counter value. */
  function SessionId(value: nat): string {
    Padded(Hex(value), WIDTH)
  }

  lemma SessionIdIsFixed(value: nat)
    requires value < UINT64
    ensures SessionId(value) == Fixed(value, WIDTH)
  {
    PowerIsUint64();
    PaddedHexIsFixed(value, WIDTH);
    PaddedIsZeros(Hex(value), WIDTH);
  }

  /** What a lower-case hexadecimal digit stands for; anything else is no digit. */
  function DigitValue(c: char): int {
    if '0' <= c <= '9' then c as int - '0' as int
    else if 'a' <= c <= 'f' then c as int - 'a' as int + 10
    else -1
  }

  /** The number a text of such digits stands for. */
  function Read(s: string): int {
    if s == "" then 0 else 16 * Read(s[..|s| - 1]) + DigitValue(s[|s| - 1])
  }

  predicate LowerHex(s: string) {
    forall i :: 0 <= i < |s| ==> 0 <= DigitValue(s[i]) < 16
  }

  lemma DigitReadsBack(d: nat)
    requires d < 16
    ensures DigitValue(Digit(d)) == d
  {
  }

  lemma ReadNext(s: string, c: char)
    ensures Read(s + [c]) == 16 * Read(s) + DigitValue(c)
    ensures LowerHex(s) && 0 <= DigitValue(c) < 16 ==> LowerHex(s + [c])
  {
    hide DigitValue;
    assert (s + [c])[..|s + [c]| - 1] == s;
  }

  lemma {:induction false} FixedReadsBack(n: nat, width: nat)
    requires n < Power(width)
    ensures Read(Fixed(n, width)) == n && LowerHex(Fixed(n, width))
  {
    hide DigitValue, Digit, Read, LowerHex;
    if width == 0 {
      NothingReadsBack();
    } else {
      FixedReadsBack(n / 16, width - 1);
      DigitReadsBack(n % 16);
      ReadNext(Fixed(n / 16, width - 1), Digit(n % 16));
    }
  }

  lemma NothingReadsBack()
    ensures Read("") == 0 && LowerHex("")
  {
  }

  /** An id is sixteen lower-case hexadecimal digits, and they spell the counter. */
  lemma SessionIdReadsBack(value: nat)
    requires value < UINT64
    ensures |SessionId(value)| == 16 && LowerHex(SessionId(value)) && Read(SessionId(value)) == value
  {
    hide SessionId, Fixed, Power, Read;
    PowerIsUint64();
    SessionIdIsFixed(value);
    FixedReadsBack(value, WIDTH);
  }

  class SessionManager {
    var sessionCounter: nat
    var messageCounter: nat
    ghost var sessions: nat  // ids handed out
    ghost var messages: nat

    ghost predicate Valid()
      reads this
    {
      sessionCounter == sessions % UINT64 && messageCounter == messages % TWO32
    }

    constructor ()
      ensures Valid() && sessions == 0 && messages == 0
    {
      sessionCounter, messageCounter, sessions, messages := 0, 0, 0, 0;
    }

    /** One `fetch_add`; concurrent calls take effect one after the other in some order. */
    method NextSessionId() returns (id: string)
      requires Valid()
      modifies this`sessionCounter, this`sessions
      ensures Valid() && sessions == old(sessions) + 1
      ensures id == IdOfCall(sessions)
    {
      var value := (sessionCounter + 1) % UINT64;
      assert value == (sessions + 1) % UINT64;
      sessionCounter, sessions := value, sessions + 1;
      return SessionId(value);
    }

    method NextMessageId() returns (id: nat)
      requires Valid()
      modifies this`messageCounter, this`messages
      ensures Valid() && messages == old(messages) + 1
      ensures id == messages % TWO32
    {
      messageCounter, messages := (messageCounter + 1) % TWO32, messages + 1;
      return messageCounter;
    }
  }

  /** The id the k-th call gets, counting from 1 in the order in which the `fetch_add`s take effect. */
  function IdOfCall(k: nat): string {
    SessionId(k % UINT64)
  }

  lemma DifferentResidues(i: nat, j: nat)
    requires i < j < i + UINT64
    ensures i % UINT64 != j % UINT64
    ensures j < UINT64 ==> i % UINT64 == i && j % UINT64 == j
  {
    var (p, q) := (i / UINT64, j / UINT64);
    assert i == UINT64 * p + i % UINT64 && j == UINT64 * q + j % UINT64;
  }

  /** Any two of 2^64 consecutive calls get different ids, and until the counter wraps later calls get
      lexicographically greater ones. */
  lemma IdsUniqueAndAscending(i: nat, j: nat)
    requires i < j < i + UINT64
    ensures |IdOfCall(i)| == WIDTH && IdOfCall(i) != IdOfCall(j)
    ensures j < UINT64 ==> LexLess(IdOfCall(i), IdOfCall(j))
  {
    hide SessionId, Fixed, Power, LexLess;
    var a, b := i % UINT64, j % UINT64;
    DifferentResidues(i, j);
    SessionIdIsFixed(a);
    SessionIdIsFixed(b);
    PowerIsUint64();
    FixedKeepsOrder(a, b, WIDTH);
  }
}

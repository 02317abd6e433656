/** Button debouncing and press detection: button_history_read,
    button_history_write and button_poll of src/rpi/main.c.
    Each button keeps its last 64 GPIO samples packed eight to a byte.
    The pins have pull-ups, so a high sample means the button is released:
    "up" below means released, and a press is the change from up to not up. */
module Debounce {

  /** Samples kept per button (HISTORY_LEN). */
  const HistoryLen: nat := 64

  /** Bytes holding one button's samples, eight samples to a byte. */
  const HistoryBytes: nat := HistoryLen / 8

  /** One button's packed history (history[HISTORY_LEN / 8]): always
      HistoryBytes bytes. */
  type History = h: seq<bv8> | |h| == HistoryBytes witness [0, 0, 0, 0, 0, 0, 0, 0]

  /** A ring cursor position: button_poll only ever stores ring_i modulo
      HISTORY_LEN, starting from zero. */
  type Ring = i: int | 0 <= i < HistoryLen

  /** A button is up when more of its samples than this are high. */
  const UpThreshold: nat := (HistoryLen * 5) / 6

  /** The GPIO pins of the buttons, in polling order (button_pins). */
  const ButtonPins: seq<int> := [5, 7, 6, 8, 12, 14, 13, 15]

  /** Bit k of b, tested against the mask 1 << k. */
  function ReadBit(b: bv8, k: nat): bool
    requires k < 8
  {
    b & (1 << k) != 0
  }

  /** The mask of a bit position is not zero. */
  lemma MaskNonZero(k: nat)
    requires k < 8
    ensures ((1 as bv8) << k) != 0
  {
    if k == 0 { } else if k == 1 { } else if k == 2 { } else if k == 3 { }
    else if k == 4 { } else if k == 5 { } else if k == 6 { } else { }
  }

  /** The masks of two different bit positions share no bit. */
  lemma MasksDisjoint(j: nat, k: nat)
    requires j < 8 && k < 8 && j != k
    ensures ((1 as bv8) << j) & ((1 as bv8) << k) == 0
  {
    if k == 0 { } else if k == 1 { } else if k == 2 { } else if k == 3 { }
    else if k == 4 { } else if k == 5 { } else if k == 6 { } else { }
  }

  /** Setting the bits of a non-zero mask m makes b & m non-zero;
      clearing them makes it zero. */
  lemma OnMask(b: bv8, m: bv8)
    requires m != 0
    ensures (b | m) & m != 0
    ensures (b & !m) & m == 0
  {
  }

  /** Setting or clearing the bits of m leaves the bits outside m as they were. */
  lemma OutsideMask(b: bv8, m: bv8, n: bv8)
    requires m & n == 0
    ensures (b | m) & n == b & n
    ensures (b & !m) & n == b & n
  {
  }

  /** b with bit k set (v) or cleared (not v). */
  function WriteBit(b: bv8, k: nat, v: bool): bv8
    requires k < 8
  {
    if v then b | (1 << k) else b & !(1 << k)
  }

  /** After writing bit k, bit k reads as the value written. */
  lemma WriteBitReadsBack(b: bv8, k: nat, v: bool)
    requires k < 8
    ensures ReadBit(WriteBit(b, k, v), k) == v
  {
    MaskNonZero(k);
    OnMask(b, 1 << k);
  }

  /** Writing bit k leaves every other bit as it was. */
  lemma WriteBitKeeps(b: bv8, k: nat, v: bool, j: nat)
    requires k < 8 && j < 8 && j != k
    ensures ReadBit(WriteBit(b, k, v), j) == ReadBit(b, j)
  {
    MasksDisjoint(j, k);
    OutsideMask(b, 1 << k, 1 << j);
  }

  /** The samples packed in bytes: sample i is bit i % 8 of byte i / 8. */
  function Unpack(bytes: seq<bv8>): (s: seq<bool>)
    ensures |s| == 8 * |bytes|
  {
    seq(8 * |bytes|, i requires 0 <= i < 8 * |bytes| => ReadBit(bytes[i / 8], i % 8))
  }

  /** Writing one bit of the packed bytes writes exactly one sample. */
  lemma UnpackWrite(bytes: seq<bv8>, i: nat, v: bool)
    requires i < 8 * |bytes|
    ensures Unpack(bytes[i / 8 := WriteBit(bytes[i / 8], i % 8, v)]) == Unpack(bytes)[i := v]
  {
    var after := bytes[i / 8 := WriteBit(bytes[i / 8], i % 8, v)];
    forall j | 0 <= j < 8 * |bytes|
      ensures Unpack(after)[j] == Unpack(bytes)[i := v][j]
    {
      if j == i {
        WriteBitReadsBack(bytes[i / 8], i % 8, v);
      } else if j / 8 == i / 8 {
        WriteBitKeeps(bytes[i / 8], i % 8, v, j % 8);
      }
    }
  }

  /** The number of high samples. */
  function Highs(s: seq<bool>): nat
  {
    if s == [] then 0 else Highs(s[..|s| - 1]) + (if s[|s| - 1] then 1 else 0)
  }

  /** Counting high samples does not depend on where they are: it is the
      multiplicity of true in the samples. */
  lemma {:induction false} HighsIsMultiplicity(s: seq<bool>)
    ensures Highs(s) == multiset(s)[true]
  {
    if s != [] {
      HighsIsMultiplicity(s[..|s| - 1]);
      assert s == s[..|s| - 1] + [s[|s| - 1]];
    }
  }

  /** Two sample windows holding the same samples in any order count alike. */
  lemma HighsPermutation(s: seq<bool>, t: seq<bool>)
    requires multiset(s) == multiset(t)
    ensures Highs(s) == Highs(t)
  {
    HighsIsMultiplicity(s);
    HighsIsMultiplicity(t);
  }

  /** The debounced state of a sample window: up (released) when more
      than five sixths of the samples are high. */
  function IsUp(s: seq<bool>): bool
  {
    Highs(s) > UpThreshold
  }

  /** A window is up exactly when at least 54 of its samples are high,
      wherever they are. */
  lemma IsUpCount(s: seq<bool>)
    ensures IsUp(s) <==> multiset(s)[true] >= 54
  {
    HighsIsMultiplicity(s);
  }

  /** Overwriting one sample changes the count by exactly the change in
      that sample. */
  lemma {:induction false} HighsUpdate(s: seq<bool>, p: nat, v: bool)
    requires p < |s|
    ensures Highs(s[p := v]) == Highs(s) - (if s[p] then 1 else 0) + (if v then 1 else 0)
  {
    var n := |s| - 1;
    if p == n {
      assert s[p := v][..n] == s[..n];
    } else {
      HighsUpdate(s[..n], p, v);
      assert s[p := v][..n] == s[..n][p := v];
    }
  }

  /** The number of high samples among the first n packed in bytes, read
      bit by bit as the count loop of button_poll does. */
  function HighCount(bytes: seq<bv8>, n: nat): nat
    requires n <= 8 * |bytes|
  {
    if n == 0 then 0
    else HighCount(bytes, n - 1) + (if ReadBit(bytes[(n - 1) / 8], (n - 1) % 8) then 1 else 0)
  }

  /** Counting the packed bits counts the high samples. */
  lemma {:induction false} HighCountIsHighs(bytes: seq<bv8>, n: nat)
    requires n <= 8 * |bytes|
    ensures HighCount(bytes, n) == Highs(Unpack(bytes)[..n])
  {
    if n > 0 {
      HighCountIsHighs(bytes, n - 1);
      assert Unpack(bytes)[..n][..n - 1] == Unpack(bytes)[..n - 1];
    }
  }

  /** One button's state (ButtonState): the packed history, the last
      debounced state and the ring cursor. The C array holds these
      structures inline, so they are values here. */
  datatype ButtonState = ButtonState(history: History, lastState: bool, ringI: Ring)
  {
    /** The 64 samples held in the history bytes. */
    function Samples(): (s: seq<bool>)
      ensures |s| == HistoryLen
    {
      Unpack(history)
    }
  }

  /** bs with sample i set to v and nothing else changed: what
      button_history_write does to the structure. */
  function WriteSample(bs: ButtonState, i: int, v: bool): (r: ButtonState)
    requires 0 <= i < HistoryLen
    ensures r.lastState == bs.lastState && r.ringI == bs.ringI
  {
    bs.(history := bs.history[i / 8 := WriteBit(bs.history[i / 8], i % 8, v)])
  }

  /** Writing sample i changes that sample and no other. */
  lemma WriteSampleSamples(bs: ButtonState, i: int, v: bool)
    requires 0 <= i < HistoryLen
    ensures WriteSample(bs, i, v).Samples() == bs.Samples()[i := v]
  {
    UnpackWrite(bs.history, i, v);
  }

  /** bs polled once with the GPIO level level: the cursor moves one place
      round the ring, the level is stored there and the debounced state is
      recomputed from the whole window. */
  function PollOnce(bs: ButtonState, level: bool): ButtonState
  {
    var moved := bs.(ringI := (bs.ringI + 1) % HistoryLen);
    var written := WriteSample(moved, moved.ringI, level);
    written.(lastState := HighCount(written.history, HistoryLen) > UpThreshold)
  }

  /** One poll moves the cursor one place round the ring, overwrites the
      sample there (and no other) with the new level, and publishes the
      debounced state of the resulting window. */
  lemma PollOnceSpec(bs: ButtonState, level: bool)
    ensures PollOnce(bs, level).ringI == (bs.ringI + 1) % HistoryLen
    ensures PollOnce(bs, level).Samples() == bs.Samples()[PollOnce(bs, level).ringI := level]
    ensures PollOnce(bs, level).lastState == IsUp(PollOnce(bs, level).Samples())
  {
    var moved := bs.(ringI := (bs.ringI + 1) % HistoryLen);
    WriteSampleSamples(moved, moved.ringI, level);
    var r := PollOnce(bs, level);
    HighCountIsHighs(r.history, HistoryLen);
    assert r.Samples()[..HistoryLen] == r.Samples();
  }

  /** A zeroed state, as the static initialiser leaves it. */
  const Zeroed: ButtonState := ButtonState(seq(HistoryBytes, _ => 0), false, 0)

  /** The published state agrees with the sample window. */
  predicate Consistent(bs: ButtonState)
  {
    bs.lastState == IsUp(bs.Samples())
  }

  /** The zeroed state holds no high sample, is not up, and is consistent. */
  lemma ZeroedConsistent()
    ensures Consistent(Zeroed) && Zeroed.ringI == 0
    ensures forall i :: 0 <= i < HistoryLen ==> !Zeroed.Samples()[i]
  {
    var s := Zeroed.Samples();
    assert forall i :: 0 <= i < HistoryLen ==> !s[i];
    assert true !in s;
    HighsIsMultiplicity(s);
  }

  /** Every poll leaves the published state consistent with the window,
      whatever it was before. */
  lemma PollConsistent(bs: ButtonState, level: bool)
    ensures Consistent(PollOnce(bs, level))
  {
    PollOnceSpec(bs, level);
  }

  /** Polling bs with level is a key press: the button was up and is not
      up afterwards. */
  predicate Pressed(bs: ButtonState, level: bool)
  {
    bs.lastState && !PollOnce(bs, level).lastState
  }

  /** For a consistent state, a press is exactly a window that was up and
      is not up once the level is stored: no press on the change to up,
      and none while the state stays the same. */
  lemma PressedIff(bs: ButtonState, level: bool)
    requires Consistent(bs)
    ensures Pressed(bs, level) <==> IsUp(bs.Samples()) && !IsUp(PollOnce(bs, level).Samples())
  {
    PollOnceSpec(bs, level);
  }

  /** A high (released) level never causes a press: storing a high sample
      cannot lower the count of high samples. */
  lemma HighNeverPresses(bs: ButtonState)
    requires Consistent(bs)
    ensures !Pressed(bs, true)
  {
    PollOnceSpec(bs, true);
    HighsUpdate(bs.Samples(), PollOnce(bs, true).ringI, true);
  }

  /** Every state of was polled once, with the level at the same index. */
  function PollAll(was: seq<ButtonState>, levels: seq<bool>): (now: seq<ButtonState>)
    requires |was| == |levels|
    ensures |now| == |was|
  {
    if was == [] then [] else [PollOnce(was[0], levels[0])] + PollAll(was[1..], levels[1..])
  }

  /** Button k of PollAll is button k polled with its own level. */
  lemma {:induction false} PollAllAt(was: seq<ButtonState>, levels: seq<bool>, k: nat)
    requires |was| == |levels| && k < |was|
    ensures PollAll(was, levels)[k] == PollOnce(was[k], levels[k])
  {
    if k > 0 {
      PollAllAt(was[1..], levels[1..], k - 1);
    }
  }

  /** After a full poll every button's published state agrees with its
      window, whatever the states were before. */
  lemma PollAllConsistent(was: seq<ButtonState>, levels: seq<bool>)
    requires |was| == |levels|
    ensures forall k :: 0 <= k < |was| ==> Consistent(PollAll(was, levels)[k])
  {
    forall k | 0 <= k < |was|
      ensures Consistent(PollAll(was, levels)[k])
    {
      PollAllAt(was, levels, k);
      PollConsistent(was[k], levels[k]);
    }
  }

  /** The pins pushed by one poll of the buttons was with levels, among
      its first n buttons: pins[j] for each pressed button j < n, in
      polling order. */
  function Presses(was: seq<ButtonState>, levels: seq<bool>, pins: seq<int>, n: nat): seq<int>
    requires |was| == |levels| == |pins| && n <= |pins|
  {
    if n == 0 then []
    else Presses(was, levels, pins, n - 1) + (if Pressed(was[n - 1], levels[n - 1]) then [pins[n - 1]] else [])
  }

  /** Only the pins of the buttons polled so far are pushed, each at most
      once. */
  lemma {:induction false} PressesWithin(was: seq<ButtonState>, levels: seq<bool>, pins: seq<int>, n: nat)
    requires |was| == |levels| == |pins| && n <= |pins|
    ensures |Presses(was, levels, pins, n)| <= n
    ensures forall x :: x in Presses(was, levels, pins, n) ==> exists a :: 0 <= a < n && pins[a] == x
  {
    if n > 0 {
      PressesWithin(was, levels, pins, n - 1);
    }
  }

  /** With distinct pins, a poll pushes the pin of each button at most
      once. */
  lemma {:induction false} PressesOnce(was: seq<ButtonState>, levels: seq<bool>, pins: seq<int>, n: nat, j: nat)
    requires |was| == |levels| == |pins| && n <= |pins| && j < |pins|
    requires forall a, b :: 0 <= a < b < |pins| ==> pins[a] != pins[b]
    ensures multiset(Presses(was, levels, pins, n))[pins[j]] <= 1
  {
    if n > 0 {
      PressesOnce(was, levels, pins, n - 1, j);
      if n - 1 == j {
        PressesOmits(was, levels, pins, n - 1, j);
      } else {
        assert pins[n - 1] != pins[j];
      }
    }
  }

  /** With distinct pins, the pin of a button not yet polled has not been
      pushed. */
  lemma {:induction false} PressesOmits(was: seq<ButtonState>, levels: seq<bool>, pins: seq<int>, n: nat, j: nat)
    requires |was| == |levels| == |pins| && n <= j < |pins|
    requires forall a, b :: 0 <= a < b < |pins| ==> pins[a] != pins[b]
    ensures pins[j] !in Presses(was, levels, pins, n)
  {
    if n > 0 {
      PressesOmits(was, levels, pins, n - 1, j);
      assert pins[n - 1] != pins[j];
    }
  }

  /** With distinct pins, a pin is pushed exactly when its button was
      pressed. */
  lemma {:induction false} PressesIff(was: seq<ButtonState>, levels: seq<bool>, pins: seq<int>, n: nat, j: nat)
    requires |was| == |levels| == |pins| && j < n <= |pins|
    requires forall a, b :: 0 <= a < b < |pins| ==> pins[a] != pins[b]
    ensures pins[j] in Presses(was, levels, pins, n) <==> Pressed(was[j], levels[j])
  {
    var last := if Pressed(was[n - 1], levels[n - 1]) then [pins[n - 1]] else [];
    assert Presses(was, levels, pins, n) == Presses(was, levels, pins, n - 1) + last;
    if j < n - 1 {
      PressesIff(was, levels, pins, n - 1, j);
      assert pins[j] != pins[n - 1];
    } else {
      PressesOmits(was, levels, pins, n - 1, j);
    }
  }

  /** Polling one more button pushes its pin when it was pressed. */
  lemma PressesNext(was: seq<ButtonState>, levels: seq<bool>, pins: seq<int>, n: nat, pressed: bool)
    requires |was| == |levels| == |pins| && n < |pins|
    requires pressed == Pressed(was[n], levels[n])
    ensures Presses(was, levels, pins, n + 1) == Presses(was, levels, pins, n) + (if pressed then [pins[n]] else [])
  {
  }

  /** The console's pins are distinct, so each push names one button. */
  lemma ButtonPinsDistinct()
    ensures forall a, b :: 0 <= a < b < |ButtonPins| ==> ButtonPins[a] != ButtonPins[b]
  {
  }

  /** All buttons (button_states, indexed like button_pins) and the FIFO
      towards the main core. */
  class Buttons {
    const pins: seq<int>
    const states: array<ButtonState>
    /** Everything pushed to the FIFO so far, oldest first. */
    var fifo: seq<int>

    ghost predicate Valid()
      reads this, states
    {
      states.Length == |pins|
    }

    /** The buttons of the console, all zeroed, nothing pushed. */
    constructor ()
      ensures Valid() && fresh(states)
      ensures pins == ButtonPins && fifo == []
      ensures forall i :: 0 <= i < states.Length ==> states[i] == Zeroed
      ensures forall i :: 0 <= i < states.Length ==> Consistent(states[i])
    {
      pins := ButtonPins;
      states := new ButtonState[|ButtonPins|](_ => Zeroed);
      fifo := [];
      ZeroedConsistent();
    }

    /** button_history_read: sample i of button b. */
    function HistoryRead(b: int, i: int): (v: bool)
      reads this, states
      requires Valid() && 0 <= b < states.Length && 0 <= i < HistoryLen
      ensures v == states[b].Samples()[i]
    {
      ReadBit(states[b].history[i / 8], i % 8)
    }

    /** button_history_write: sample i of button b becomes value; every
        other sample, field and button stays as it was. */
    method HistoryWrite(b: int, i: int, value: bool)
      requires Valid() && 0 <= b < states.Length && 0 <= i < HistoryLen
      modifies states
      ensures Valid()
      ensures states[b] == WriteSample(old(states[b]), i, value)
      ensures states[b].Samples() == old(states[b].Samples())[i := value]
      ensures forall k :: 0 <= k < states.Length && k != b ==> states[k] == old(states[k])
    {
      var bs := states[b];
      WriteSampleSamples(bs, i, value);
      states[b] := bs.(history := bs.history[i / 8 := WriteBit(bs.history[i / 8], i % 8, value)]);
    }

    /** The count loop of button_poll: the number of high samples of
        button b. */
    method CountHighs(b: int) returns (up: int)
      requires Valid() && 0 <= b < states.Length
      ensures up == Highs(states[b].Samples())
    {
      up := 0;
      var i := 0;
      while i < HistoryLen
        invariant 0 <= i <= HistoryLen
        invariant up == Highs(states[b].Samples()[..i])
      {
        var sample := HistoryRead(b, i);
        assert states[b].Samples()[..i + 1][..i] == states[b].Samples()[..i];
        up := up + (if sample then 1 else 0);
        i := i + 1;
      }
      assert states[b].Samples()[..HistoryLen] == states[b].Samples();
    }

    /** One pass of the loop of button_poll, for button b: advance the
        cursor, store the level there, recount, and report whether the
        debounced state just went from up to not up. Other buttons are
        untouched. */
    method PollButton(b: int, level: bool) returns (pressed: bool)
      requires Valid() && 0 <= b < states.Length
      modifies states
      ensures Valid()
      ensures states[b] == PollOnce(old(states[b]), level)
      ensures pressed == Pressed(old(states[b]), level)
      ensures forall k :: 0 <= k < states.Length && k != b ==> states[k] == old(states[k])
    {
      var bs := states[b];
      ghost var after := PollOnce(bs, level);
      states[b] := bs.(ringI := (bs.ringI + 1) % HistoryLen);
      HistoryWrite(b, states[b].ringI, level);
      assert states[b] == after.(lastState := bs.lastState);
      var count := CountHighs(b);
      HighCountIsHighs(states[b].history, HistoryLen);
      assert states[b].Samples()[..HistoryLen] == states[b].Samples();
      var up := count > UpThreshold;
      assert up == after.lastState;
      pressed := false;
      if up != states[b].lastState {
        states[b] := states[b].(lastState := up);
        if !up {
          pressed := true;
        }
      }
    }

    /** button_poll: poll every button once, in pin order; levels[i] is the
        GPIO level read for pins[i]. Every button is polled once with its
        level, and the pins of the buttons that went from up to not up are
        pushed, in pin order. */
    method Poll(levels: seq<bool>)
      requires Valid() && |levels| == |pins|
      modifies this, states
      ensures Valid()
      ensures states[..] == PollAll(old(states[..]), levels)
      ensures forall k :: 0 <= k < states.Length ==> Consistent(states[k])
      ensures fifo == old(fifo) + Presses(old(states[..]), levels, pins, |pins|)
    {
      ghost var olds := states[..];
      ghost var polled := PollAll(olds, levels);
      var i := 0;
      while i < states.Length
        invariant 0 <= i <= states.Length
        invariant Valid() && |olds| == states.Length
        invariant forall k :: 0 <= k < i ==> states[k] == polled[k]
        invariant forall k :: i <= k < states.Length ==> states[k] == olds[k]
        invariant fifo == old(fifo) + Presses(olds, levels, pins, i)
      {
        var pressed := PollButton(i, levels[i]);
        PollAllAt(olds, levels, i);
        if pressed {
          fifo := fifo + [pins[i]];
        }
        PressesNext(olds, levels, pins, i, pressed);
        i := i + 1;
      }
      assert states[..] == polled;
      PollAllConsistent(olds, levels);
    }
  }
}

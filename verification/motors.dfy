/** Motor speeds: how they travel, and the pending and active speed of a motor. */
module Motors {
  import opened Bytes

  const DC_MOTOR_MAX_RPM_SPEED := 125

  /** `dc_rpm_t`, a 16-bit signed integer. */
  type Rpm = x: int | -0x8000 <= x < 0x8000

  /** The two bytes of a speed in memory: two's complement, low byte first. */
  function Encode(speed: Rpm): (bytes: seq<byte>)
    ensures |bytes| == 2
  {
    [speed % 0x1_0000 % 0x100, speed % 0x1_0000 / 0x100]
  }

  function Decode(low: byte, high: byte): Rpm {
    var word := 0x100 * high + low;
    if word < 0x8000 then word else word - 0x1_0000
  }

  /** The number that two bytes hold, low byte first. */
  function Word(low: int, high: int): int {
    low + 0x100 * high
  }

  /** The low byte comes first, and a word of 2^15 or more stands for a negative speed. */
  lemma LowByteFirst(speed: Rpm, low: byte, high: byte)
    ensures Word(Encode(speed)[0], Encode(speed)[1]) == if speed < 0 then speed + 65536 else speed
    ensures Decode(low, high) == if high < 128 then Word(low, high) else Word(low, high) - 65536
  {
    hide Encode;
    EncodedWord(speed);
  }

  lemma EncodedWord(speed: Rpm)
    ensures Word(Encode(speed)[0], Encode(speed)[1]) == if speed < 0 then speed + 65536 else speed
  {
    var word := speed % 0x1_0000;
    assert word == if speed < 0 then speed + 0x1_0000 else speed;
    TwoBytes(word);
  }

  lemma TwoBytes(word: nat)
    ensures word == 0x100 * (word / 0x100) + word % 0x100
  {
  }

  /** A speed written into memory and read back is the same speed, and each pair of bytes is a speed. */
  lemma SpeedRoundTrip(speed: Rpm)
    ensures Decode(Encode(speed)[0], Encode(speed)[1]) == speed
  {
    var word := speed % 0x1_0000;
    assert word == if speed < 0 then speed + 0x1_0000 else speed;
    assert word == 0x100 * (word / 0x100) + word % 0x100;
  }

  lemma BytesRoundTrip(low: byte, high: byte)
    ensures Encode(Decode(low, high)) == [low, high]
  {
    var word := 0x100 * high + low;
    assert Decode(low, high) % 0x1_0000 == word;
    assert word % 0x100 == low && word / 0x100 == high;
  }

  function Max(x: Rpm, y: Rpm): Rpm {
    if x > y then x else y
  }

  function Min(x: Rpm, y: Rpm): Rpm {
    if x < y then x else y
  }

  /** `compute_limited_speed`, as coded. */
  function Limited(speed: Rpm): Rpm {
    if speed >= 0 then Min(speed, DC_MOTOR_MAX_RPM_SPEED) else Max(speed, DC_MOTOR_MAX_RPM_SPEED)
  }

  /**
   The limit holds and is not changed by limiting again; a requested speed is kept exactly if it is between
   0 and 125, and any other one becomes 125, so that no motor is ever asked to turn backwards.
   */
  lemma LimitedIsWithinBounds(speed: Rpm)
    ensures 0 <= Limited(speed) <= 125 && Limited(Limited(speed)) == Limited(speed)
    ensures Limited(speed) == speed <==> 0 <= speed <= 125
    ensures speed < 0 || speed > 125 ==> Limited(speed) == 125
  {
  }

  /** `speed_next`, `speed_target` and `speed_actual`. */
  datatype Motor = Motor(next: Rpm, target: Rpm, actual: Rpm) {
    function Set(speed: Rpm): Motor {
      this.(next := Limited(speed))
    }

    function Apply(): Motor {
      this.(target := next)
    }
  }

  // ----- The motor module in place

  class DcMotor {
    var speedNext: Rpm
    var speedTarget: Rpm
    var speedActual: Rpm

    ghost function View(): Motor
      reads this
    {
      Motor(speedNext, speedTarget, speedActual)
    }

    constructor ()
      ensures View() == Motor(0, 0, 0)
    {
      speedNext, speedTarget, speedActual := 0, 0, 0;
    }

    /** `dcmotor_set`. */
    method Set(next: Rpm)
      modifies this
      ensures View() == old(View()).Set(next)
      ensures speedNext == if 0 <= next <= 125 then next else 125
      ensures speedTarget == old(speedTarget) && speedActual == old(speedActual)
    {
      speedNext := if next >= 0 then Min(next, DC_MOTOR_MAX_RPM_SPEED) else Max(next, DC_MOTOR_MAX_RPM_SPEED);
    }

    /** `dcmotor_apply`. */
    method Apply()
      modifies this
      ensures View() == old(View()).Apply()
      ensures speedTarget == speedNext == old(speedNext) && speedActual == old(speedActual)
    {
      speedTarget := speedNext;
    }

    /** `dcmotor_get`. */
    method Get() returns (speed: Rpm)
      ensures speed == View().actual
    {
      speed := speedActual;
    }
  }
}

/** The pomodoro schedule: the lengths, in seconds, of the countdowns `Timer.pomodoro` runs one after another. */
module Timer {

  /** Work periods alternate with short breaks, starting and ending with work: `cycles` of one, `cycles - 1` of the other. */
  function Schedule(work: int, shortBreak: int, cycles: int): (s: seq<int>)
    ensures |s| == if cycles > 0 then 2 * cycles - 1 else 0
  {
    seq(if cycles > 0 then 2 * cycles - 1 else 0, j => if j % 2 == 0 then work * 60 else shortBreak * 60)
  }

  /** `pomodoro`, with `countdown` replaced by recording the seconds it is given. */
  method Pomodoro(work: int, shortBreak: int, cycles: int) returns (calls: seq<int>)
    ensures calls == Schedule(work, shortBreak, cycles)
  {
    calls := [];
    var i := 1;
    while i <= cycles
      invariant 1 <= i && (cycles >= 1 ==> i <= cycles + 1)
      invariant |calls| == if i - 1 < cycles then 2 * (i - 1) else if cycles > 0 then 2 * cycles - 1 else 0
      invariant forall j :: 0 <= j < |calls| ==> calls[j] == if j % 2 == 0 then work * 60 else shortBreak * 60
    {
      calls := calls + [work * 60];
      if i < cycles {
        calls := calls + [shortBreak * 60];
      }
      i := i + 1;
    }
  }

  /** The sum of the durations. */
  function Total(s: seq<int>): int {
    if s == [] then 0 else Total(s[..|s| - 1]) + s[|s| - 1]
  }

  /** A pomodoro lasts `cycles` work periods and `cycles - 1` breaks. */
  lemma {:induction false} ScheduleTotal(work: int, shortBreak: int, cycles: int)
    requires cycles >= 1
    ensures Total(Schedule(work, shortBreak, cycles)) == 60 * (cycles * work + (cycles - 1) * shortBreak)
  {
    var s := Schedule(work, shortBreak, cycles);
    if cycles > 1 {
      var p := Schedule(work, shortBreak, cycles - 1);
      ScheduleTotal(work, shortBreak, cycles - 1);
      assert s[..|s| - 1][..|s| - 2] == p;
      assert s[|s| - 1] == work * 60 && s[|s| - 2] == shortBreak * 60;
    }
  }

  /** One minute of work and two of break over two cycles: 60 s of work, 120 s of break, 60 s of work. */
  lemma ShortPomodoro()
    ensures Schedule(1, 2, 2) == [60, 120, 60]
  {
  }
}

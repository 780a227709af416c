/** The autotype queue object (src/autotype.cpp). Each locked method is one step. */
module AutotypeQueue {
  import opened Wrappers
  import opened Autotype
  import opened AutotypeText

  class AutoTypeQueue {
    const keys: Keys
    var queue: seq<Action>
    var pauseCounter: int
    var awaitingRelease: bool
    var pendingReleaseKey: Key
    var interCharPause: bool
    var blocked: bool

    ghost function View(): State
      reads this
    {
      State(queue, pauseCounter, awaitingRelease, pendingReleaseKey, interCharPause, blocked)
    }

    ghost predicate Valid() reads this { Sound(View()) }

    constructor (keys: Keys)
      ensures Valid() && View() == IDLE && this.keys == keys
    {
      this.keys := keys;
      queue, pauseCounter, awaitingRelease, pendingReleaseKey, interCharPause, blocked := [], 0, false, 0, false, false;
    }

    /** A text is taken whole or not at all. */
    method EnqueueText(text: string) returns (error: Option<ParseError>)
      requires Valid()
      modifies this`queue
      ensures Valid()
      ensures match Parse(keys, text, 0)
        case Ok(actions) => error == None && View() == old(View()).(queue := old(queue) + actions)
        case Err(e) => error == Some(e) && View() == old(View())
      ensures Residual(View()) == old(Residual(View())) + Script(if error == None then queue[|old(queue)|..] else [])
    {
      var parsed := ParseText(text);
      match parsed
      case Err(e) =>
        error := Some(e);
        assert Residual(View()) + [] == Residual(View());
      case Ok(actions) =>
        EnqueueAppends(View(), actions);
        assert (queue + actions)[|queue|..] == actions;
        queue := queue + actions;
        error := None;
    }

    method ParseText(text: string) returns (parsed: Parsed)
      ensures parsed == Parse(keys, text, 0)
    {
      hide ReadTag, Parse, Behind, IndexOf;
      ParseNothing(keys);
      var done: seq<Action> := [];
      var i := 0;
      assert text[0..] == text;
      BehindNone(Parse(keys, text, 0));
      while i < |text|
        invariant 0 <= i <= |text|
        invariant Behind(done, Parse(keys, text[i..], i)) == Parse(keys, text, 0)
        decreases |text| - i
      {
        if text[i] == '~' {
          if i + 1 < |text| && text[i + 1] == '~' {
            SkipTilde(keys, text, i);
            i := i + 2;
          } else {
            var close := i + 1 + IndexOf(text[i + 1..], '~');
            TagStep(keys, text, i, done);
            if close == |text| {
              return Err(Unclosed(i));
            }
            var tag := ReadTag(keys, text[i + 1..close]);
            if tag.Bad? {
              return Err(tag.error);
            }
            done := done + [tag.action];
            i := close + 1;
          }
        } else {
          CharStep(keys, text, i);
          if text[i] in keys.chars {
            BehindTwice(done, [Type(keys.chars[text[i]])], Parse(keys, text[i + 1..], i + 1));
            done := done + [Type(keys.chars[text[i]])];
          }
          i := i + 1;
        }
      }
      assert text[i..] == "";
      BehindEnd(done);
      parsed := Ok(done);
    }

    /** One keyboard scan. `command` answers whether an emulator command blocks.
        The event is the next one of the script; an idle queue stays as it is. */
    method TickOnce(command: Key -> bool) returns (event: Event, more: bool)
      requires Valid()
      modifies this
      ensures Valid()
      ensures var blocks := old(queue) != [] && command(old(queue)[0].KeyOrZero());
        Step(View(), event, more) == Tick(old(View()), blocks)
      ensures !old(blocked) && old(Active(View())) ==> [event] + Residual(View()) == old(Residual(View()))
      ensures old(blocked) || !old(Active(View())) ==> event == Silent && View() == old(View())
    {
      ghost var before := View();
      ghost var blocks := queue != [] && command(queue[0].KeyOrZero());
      ActiveMeansMore(before);
      if !before.blocked { TickPlays(before, blocks); }
      event := Silent;
      if blocked {
        return Silent, true;
      }
      if awaitingRelease {
        event := KeyUp(pendingReleaseKey);
        awaitingRelease := false;
        pendingReleaseKey := 0;
        interCharPause := true;
        return event, true;
      }
      if interCharPause {
        interCharPause := false;
        return Silent, queue != [];
      }
      if pauseCounter > 0 {
        pauseCounter := pauseCounter - 1;
        return Silent, true;
      }
      if queue == [] {
        return Silent, false;
      }
      var action := queue[0];
      queue := queue[1..];
      match action
      case Type(k) =>
        event := KeyDown(k);
        awaitingRelease := true;
        pendingReleaseKey := k;
        more := true;
      case Press(k) =>
        event := KeyDown(k);
        more := queue != [] || awaitingRelease;
      case Release(k) =>
        event := KeyUp(k);
        interCharPause := true;
        more := true;
      case Pause(n) =>
        pauseCounter := n - 1;
        more := true;
      case Command(k) =>
        event := Run(k);
        if command(k) {
          blocked := true;
        }
        more := true;
    }

    method ResumeQueue()
      requires Valid()
      modifies this`blocked
      ensures Valid() && View() == old(View()).(blocked := false)
      ensures Residual(View()) == old(Residual(View()))
    {
      SameResidual(View());
      blocked := false;
    }

    /** True as long as a tick has something left to play, or a block to wait for. */
    method IsActive() returns (r: bool)
      requires Valid()
      ensures r == (blocked || Residual(View()) != [])
    {
      ActiveMeansMore(View());
      r := queue != [] || awaitingRelease || pauseCounter > 0 || interCharPause || blocked;
    }

    method Clear()
      modifies this
      ensures Valid() && View() == IDLE && Residual(View()) == []
    {
      queue, pauseCounter, awaitingRelease, pendingReleaseKey, interCharPause, blocked := [], 0, false, 0, false, false;
    }
  }

  lemma ParseNothing(keys: Keys)
    ensures forall at :: Parse(keys, "", at) == Ok([])
  {
  }

  lemma BehindEnd(done: seq<Action>)
    ensures Behind(done, Ok([])) == Ok(done)
  {
  }

  lemma SkipTilde(keys: Keys, text: string, i: nat)
    requires i + 1 < |text| && text[i] == '~' && text[i + 1] == '~'
    ensures Parse(keys, text[i..], i) == Parse(keys, text[i + 2..], i + 2)
  {
  }

  lemma CharStep(keys: Keys, text: string, i: nat)
    requires i < |text| && text[i] != '~'
    ensures Parse(keys, text[i..], i)
      == if text[i] in keys.chars then Behind([Type(keys.chars[text[i]])], Parse(keys, text[i + 1..], i + 1))
         else Parse(keys, text[i + 1..], i + 1)
  {
  }

  lemma TagStep(keys: Keys, text: string, i: nat, done: seq<Action>)
    requires i < |text| && text[i] == '~' && !(i + 1 < |text| && text[i + 1] == '~')
    ensures var close := i + 1 + IndexOf(text[i + 1..], '~');
      Behind(done, Parse(keys, text[i..], i))
      == if close == |text| then Err(Unclosed(i))
         else
           var tag := ReadTag(keys, text[i + 1..close]);
           if tag.Bad? then Err(tag.error)
           else Behind(done + [tag.action], Parse(keys, text[close + 1..], close + 1))
  {
    hide ReadTag;
    var t, close := text[i..], i + 1 + IndexOf(text[i + 1..], '~');
    assert t[1..] == text[i + 1..];
    if close < |text| {
      assert t[1..close - i] == text[i + 1..close];
      assert t[close - i + 1..] == text[close + 1..];
      var tag := ReadTag(keys, text[i + 1..close]);
      if tag.Good? { BehindTwice(done, [tag.action], Parse(keys, text[close + 1..], close + 1)); }
    }
  }
}

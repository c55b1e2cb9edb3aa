/**
 * The Lock Coordinator: the part of the `messageCreate` handler of index.js
 * that decides what a message does (ignore it, refuse it, report that the
 * channel is already in the requested state, report a cooldown, or toggle
 * the channel) and the in-memory `rememberData` store it updates.
 *
 * The chat client is abstracted away: the bot's and the member's
 * permissions arrive as booleans, the channel as its id and name, the clock
 * as `now`, and the effects of a toggle on the channel are returned as the
 * new name and the send-messages overwrite for the managed role.
 */
module LockCoordinator {
  import opened Wrappers
  import opened JsStrings
  import opened Cooldown
  import opened CommandParsing
  import opened ChannelName

  /** The three permission facts the handler checks, in the order it checks them. */
  datatype Permissions = Permissions(botCanSend: bool, botCanManage: bool, memberHasAllowedRole: bool)

  /** What the handler reads of `message.channel`. */
  datatype Channel = Channel(id: string, name: string)

  /** A top-level `rememberData` value: `'locked'` or `'unlocked'`. */
  datatype LockState = Locked | Unlocked

  /** The `SEND_MESSAGES` overwrite written for the managed role: `false` or `null`. */
  datatype SendOverwrite = DenySend | ClearSend

  /** How the handler ends for one message. */
  datatype Outcome =
    | Ignored                                   // no prefix, or a bot wrote it
    | BotCannotSend                             // refusal sent to the author directly
    | BotCannotManage                           // refusal posted in the channel
    | MemberNotAllowed                          // member holds none of the allowed roles
    | NotAToggle                                // any command other than lock and unlock
    | AlreadyInState(cmd: Command)
    | OnCooldown(cmd: Command, remainingMs: int)
    | Toggled(cmd: Command, newName: string, overwrite: SendOverwrite)

  function StateAfter(cmd: Command): LockState {
    if cmd == Lock then Locked else Unlocked
  }

  function OverwriteFor(cmd: Command): SendOverwrite {
    if cmd == Lock then DenySend else ClearSend
  }

  function Opposite(cmd: Command): Command {
    if cmd == Lock then Unlock else Lock
  }

  /** The name `setName` receives on a toggle. */
  function Renamed(cmd: Command, name: string): string {
    if cmd == Lock then LockedName(name) else UnlockedName(name)
  }

  /** `(isLockCommand && alreadyLocked) || (!isLockCommand && alreadyUnlocked)`, read off the name alone. */
  predicate AlreadyInRequestedState(cmd: Command, name: string) {
    (cmd == Lock && IsLockedName(name)) || (cmd == Unlock && !IsLockedName(name))
  }

  /** The message passed the prefix test and all three permission gates. */
  predicate Admitted(m: Message, p: Permissions) {
    IsAddressed(m) && p.botCanSend && p.botCanManage && p.memberHasAllowedRole
  }

  /** The toggle decision for a recognised command: state first, then cooldown, then the toggle itself. */
  function Resolve(cmd: Command, name: string, lastExecuted: Option<int>, now: int): Outcome {
    if AlreadyInRequestedState(cmd, name) then AlreadyInState(cmd)
    else if !CanExecuteCommand(lastExecuted, LockDuration, now) then
      OnCooldown(cmd, RemainingTime(lastExecuted.value, now))
    else Toggled(cmd, Renamed(cmd, name), OverwriteFor(cmd))
  }

  /** The decision of the handler, in its order: prefix, three gates, command, then `Resolve`. */
  function Decide(m: Message, p: Permissions, name: string, lastExecuted: Option<int>, now: int): Outcome {
    if !IsAddressed(m) then Ignored
    else if !p.botCanSend then BotCannotSend
    else if !p.botCanManage then BotCannotManage
    else if !p.memberHasAllowedRole then MemberNotAllowed
    else match Recognize(CommandWord(m.content))
      case None => NotAToggle
      case Some(cmd) => Resolve(cmd, name, lastExecuted, now)
  }

  /** The toggle decision always answers the command: it never ends like a gate. */
  lemma ResolveAnswers(cmd: Command, name: string, lastExecuted: Option<int>, now: int)
    ensures var o := Resolve(cmd, name, lastExecuted, now);
      (o.AlreadyInState? || o.OnCooldown? || o.Toggled?) && o.cmd == cmd
  {
  }

  /**
   * The gates are tried in order and each refusal depends only on the gates
   * before it: an unprefixed or bot message is ignored, then a missing send
   * permission, then a missing manage permission, then a missing role
   * refuses; only an admitted lock or unlock reaches the toggle decision.
   */
  lemma GateOrder(m: Message, p: Permissions, name: string, lastExecuted: Option<int>, now: int)
    ensures Decide(m, p, name, lastExecuted, now) == Ignored <==> !IsAddressed(m)
    ensures Decide(m, p, name, lastExecuted, now) == BotCannotSend <==> IsAddressed(m) && !p.botCanSend
    ensures Decide(m, p, name, lastExecuted, now) == BotCannotManage <==>
      IsAddressed(m) && p.botCanSend && !p.botCanManage
    ensures Decide(m, p, name, lastExecuted, now) == MemberNotAllowed <==>
      IsAddressed(m) && p.botCanSend && p.botCanManage && !p.memberHasAllowedRole
    ensures Decide(m, p, name, lastExecuted, now) == NotAToggle <==>
      Admitted(m, p) && Recognize(CommandWord(m.content)) == None
    ensures forall cmd :: Admitted(m, p) && Recognize(CommandWord(m.content)) == Some(cmd) ==>
      Decide(m, p, name, lastExecuted, now) == Resolve(cmd, name, lastExecuted, now)
  {
    var o := Decide(m, p, name, lastExecuted, now);
    if Admitted(m, p) {
      var c := Recognize(CommandWord(m.content));
      if c.Some? {
        assert o == Resolve(c.value, name, lastExecuted, now);
        ResolveAnswers(c.value, name, lastExecuted, now);
      }
    }
  }

  /**
   * Asking for the state the name already shows is answered as such before
   * the cooldown is consulted: whatever is stored and whatever the time.
   */
  lemma AlreadyInStateIgnoresCooldown(cmd: Command, name: string, lastExecuted: Option<int>, now: int)
    ensures AlreadyInRequestedState(cmd, name) <==> Resolve(cmd, name, lastExecuted, now) == AlreadyInState(cmd)
  {
  }

  /**
   * A real toggle request is refused exactly when the cooldown refuses it;
   * the refusal carries `lockDuration - (now - lastExecuted)`, which is never
   * negative, and at most the whole duration when the clock has not gone back.
   */
  lemma CooldownRefusal(cmd: Command, name: string, lastExecuted: Option<int>, now: int)
    requires !AlreadyInRequestedState(cmd, name)
    ensures Resolve(cmd, name, lastExecuted, now).OnCooldown? <==> !CanExecuteCommand(lastExecuted, LockDuration, now)
    ensures Resolve(cmd, name, lastExecuted, now).OnCooldown? ==>
      && IsTruthy(lastExecuted)
      && Resolve(cmd, name, lastExecuted, now).remainingMs == LockDuration - (now - lastExecuted.value)
      && 0 <= Resolve(cmd, name, lastExecuted, now).remainingMs
      && (now >= lastExecuted.value ==> Resolve(cmd, name, lastExecuted, now).remainingMs <= LockDuration)
  {
    RefusalRemainingTime(lastExecuted, now);
  }

  /**
   * A toggle happens only for a command the name does not already show and
   * that the cooldown allows; the new name shows the requested state, and the
   * role's overwrite is denied on lock and cleared on unlock.
   */
  lemma ToggleConditions(cmd: Command, name: string, lastExecuted: Option<int>, now: int)
    ensures Resolve(cmd, name, lastExecuted, now).Toggled? <==>
      !AlreadyInRequestedState(cmd, name) && CanExecuteCommand(lastExecuted, LockDuration, now)
    ensures Resolve(cmd, name, lastExecuted, now).Toggled? ==>
      var o := Resolve(cmd, name, lastExecuted, now);
      && o.cmd == cmd
      && o.newName == Renamed(cmd, name)
      && (IsLockedName(o.newName) <==> cmd == Lock)
      && o.overwrite == OverwriteFor(cmd)
  {
  }

  /** Right after a toggle, repeating the same command on the new name is answered "already in that state". */
  lemma RepeatAfterToggle(cmd: Command, name: string, lastExecuted: Option<int>, now: int,
                          lastExecuted': Option<int>, now': int)
    requires Resolve(cmd, name, lastExecuted, now).Toggled?
    ensures Resolve(cmd, Resolve(cmd, name, lastExecuted, now).newName, lastExecuted', now') == AlreadyInState(cmd)
  {
  }

  /**
   * After a toggle recorded at a non-zero time, the opposite command on the
   * new name is refused while at most `lockDuration` has elapsed (the exact
   * boundary included), with the rest of the wait reported, and toggles
   * once more than that has elapsed.
   */
  lemma OppositeAfterToggle(cmd: Command, name: string, lastExecuted: Option<int>, now: int, elapsed: int)
    requires Resolve(cmd, name, lastExecuted, now).Toggled?
    requires now != 0
    ensures var newName := Resolve(cmd, name, lastExecuted, now).newName;
      elapsed <= LockDuration ==>
        Resolve(Opposite(cmd), newName, Some(now), now + elapsed) == OnCooldown(Opposite(cmd), LockDuration - elapsed)
    ensures var newName := Resolve(cmd, name, lastExecuted, now).newName;
      elapsed > LockDuration ==>
        Resolve(Opposite(cmd), newName, Some(now), now + elapsed) ==
          Toggled(Opposite(cmd), Renamed(Opposite(cmd), newName), OverwriteFor(Opposite(cmd)))
  {
    var newName := Resolve(cmd, name, lastExecuted, now).newName;
    assert IsLockedName(newName) <==> cmd == Lock by {
      ToggleConditions(cmd, name, lastExecuted, now);
    }
    OppositeOnName(cmd, newName, now, elapsed);
  }

  /** On a name that shows `cmd`'s state, the opposite command meets only the cooldown started at `now`. */
  lemma OppositeOnName(cmd: Command, newName: string, now: int, elapsed: int)
    requires IsLockedName(newName) <==> cmd == Lock
    requires now != 0
    ensures elapsed <= LockDuration ==>
      Resolve(Opposite(cmd), newName, Some(now), now + elapsed) == OnCooldown(Opposite(cmd), LockDuration - elapsed)
    ensures elapsed > LockDuration ==>
      Resolve(Opposite(cmd), newName, Some(now), now + elapsed) ==
        Toggled(Opposite(cmd), Renamed(Opposite(cmd), newName), OverwriteFor(Opposite(cmd)))
  {
  }

  /**
   * A toggle recorded at time 0 leaves no cooldown behind: the stored 0 is
   * falsy, so the opposite command toggles again at any time.
   */
  lemma ToggleAtTimeZeroLeavesNoCooldown(cmd: Command, name: string, lastExecuted: Option<int>, now': int)
    requires Resolve(cmd, name, lastExecuted, 0).Toggled?
    ensures Resolve(Opposite(cmd), Resolve(cmd, name, lastExecuted, 0).newName, Some(0), now').Toggled?
  {
  }

  /** `rememberData`: the top-level channel entries and the `cooldowns` sub-map. */
  datatype Store = Store(states: map<string, LockState>, cooldowns: map<string, int>)

  /** `rememberData.cooldowns[channel.id]`. */
  function LastExecuted(cooldowns: map<string, int>, id: string): Option<int> {
    if id in cooldowns then Some(cooldowns[id]) else None
  }

  /** The two writes of a successful toggle: the channel's entry and its cooldown. */
  function Record(st: Store, id: string, cmd: Command, now: int): Store {
    Store(st.states[id := StateAfter(cmd)], st.cooldowns[id := now])
  }

  /**
   * After `Record` the channel's entry is the new state and its cooldown the
   * current time; every other entry of both maps is kept and no entry is removed.
   */
  lemma RecordFrame(st: Store, id: string, cmd: Command, now: int)
    ensures var r := Record(st, id, cmd, now);
      && r.states.Keys == st.states.Keys + {id} && r.states[id] == StateAfter(cmd)
      && (forall k :: k in st.states && k != id ==> r.states[k] == st.states[k])
      && r.cooldowns.Keys == st.cooldowns.Keys + {id} && LastExecuted(r.cooldowns, id) == Some(now)
      && (forall k :: k != id ==> LastExecuted(r.cooldowns, k) == LastExecuted(st.cooldowns, k))
  {
  }

  /** The remembered state of a channel agrees with what its name shows. */
  predicate Agrees(st: Store, id: string, name: string) {
    id in st.states && (st.states[id] == Locked <==> IsLockedName(name))
  }

  /** After a toggle is recorded, the store's entry for the channel agrees with the new name. */
  lemma RecordAgreesWithNewName(st: Store, cmd: Command, channel: Channel, now: int)
    requires Resolve(cmd, channel.name, LastExecuted(st.cooldowns, channel.id), now).Toggled?
    ensures var o := Resolve(cmd, channel.name, LastExecuted(st.cooldowns, channel.id), now);
      Agrees(Record(st, channel.id, cmd, now), channel.id, o.newName)
  {
  }

  /**
   * Channel ids are numeric snowflakes. In the source the channel entries
   * and the `cooldowns` map share one object, so a channel whose id were
   * `"cooldowns"` would overwrite that map. `Store` keeps the two maps apart;
   * the handler's `requires IsSnowflake(channel.id)` stands for the
   * assumption, shown by `SnowflakeIsNotCooldownsKey`, that no id collides.
   */
  predicate IsSnowflake(id: string) {
    id != [] && AllDigits(id)
  }

  /** A snowflake never collides with the `cooldowns` key of the same object. */
  lemma SnowflakeIsNotCooldownsKey(id: string)
    requires IsSnowflake(id)
    ensures id != "cooldowns"
  {
    assert !IsDigit("cooldowns"[0]);
  }

  /** The process-wide `rememberData` object and what was last written to `remember.json`. */
  class RememberStore {
    var states: map<string, LockState>
    var cooldowns: map<string, int>
    /** The last full snapshot the process wrote to the file, if any. */
    var lastWritten: Option<Store>

    function Snapshot(): Store
      reads this
    {
      Store(states, cooldowns)
    }

    /** Start-up: the file's entries are kept, and the `cooldowns` sub-map is added when it is missing. */
    constructor (loadedStates: map<string, LockState>, loadedCooldowns: Option<map<string, int>>)
      ensures states == loadedStates
      ensures loadedCooldowns.Some? ==> cooldowns == loadedCooldowns.value
      ensures loadedCooldowns.None? ==> cooldowns == map[]
      ensures lastWritten == None
    {
      states := loadedStates;
      if loadedCooldowns.None? {
        cooldowns := map[];
      } else {
        cooldowns := loadedCooldowns.value;
      }
      lastWritten := None;
    }

    /**
     * One `messageCreate` event. The outcome is the decision taken on the
     * channel name and the stored cooldown; only a toggle changes the store,
     * by the two writes of `Record`, and rewrites the whole of it to the file.
     */
    method HandleMessage(m: Message, p: Permissions, channel: Channel, now: int) returns (o: Outcome)
      requires IsSnowflake(channel.id)
      modifies this
      ensures o == Decide(m, p, channel.name, LastExecuted(old(cooldowns), channel.id), now)
      ensures o.Toggled? ==> Snapshot() == Record(old(Snapshot()), channel.id, o.cmd, now)
      ensures o.Toggled? ==> lastWritten == Some(Snapshot())
      ensures !o.Toggled? ==> Snapshot() == old(Snapshot()) && lastWritten == old(lastWritten)
    {
      if !StartsWith(m.content, Prefix) || m.authorIsBot {
        return Ignored;
      }
      var command := CommandWord(m.content);
      if !p.botCanSend {
        return BotCannotSend;
      }
      if !p.botCanManage {
        return BotCannotManage;
      }
      if !p.memberHasAllowedRole {
        return MemberNotAllowed;
      }
      var cmd := Recognize(command);
      if cmd.None? {
        return NotAToggle;
      }
      o := Toggle(cmd.value, channel, now);
    }

    /**
     * The `lock`/`unlock` branch of the handler: the state test on the name,
     * then the cooldown, then the rename and the two writes.
     */
    method Toggle(cmd: Command, channel: Channel, now: int) returns (o: Outcome)
      requires IsSnowflake(channel.id)
      modifies this
      ensures o == Resolve(cmd, channel.name, LastExecuted(old(cooldowns), channel.id), now)
      ensures o.Toggled? ==> Snapshot() == Record(old(Snapshot()), channel.id, cmd, now)
      ensures o.Toggled? ==> lastWritten == Some(Snapshot())
      ensures !o.Toggled? ==> Snapshot() == old(Snapshot()) && lastWritten == old(lastWritten)
    {
      var lastExecuted := LastExecuted(cooldowns, channel.id);
      var isLockCommand := cmd == Lock;
      var alreadyLocked := IsLockedName(channel.name);
      var alreadyUnlocked := !alreadyLocked;
      if (isLockCommand && alreadyLocked) || (!isLockCommand && alreadyUnlocked) {
        return AlreadyInState(cmd);
      }
      if !CanExecuteCommand(lastExecuted, LockDuration, now) {
        return OnCooldown(cmd, LockDuration - (now - lastExecuted.value));
      }
      if isLockCommand {
        var newName := LockedName(channel.name);
        states := states[channel.id := Locked];
        cooldowns := cooldowns[channel.id := now];
        lastWritten := Some(Store(states, cooldowns));
        o := Toggled(Lock, newName, DenySend);
      } else {
        var newName := UnlockedName(channel.name);
        states := states[channel.id := Unlocked];
        cooldowns := cooldowns[channel.id := now];
        lastWritten := Some(Store(states, cooldowns));
        o := Toggled(Unlock, newName, ClearSend);
      }
    }
  }
}

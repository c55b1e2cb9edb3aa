/**
 * The channel-name convention of index.js: a locked channel's name starts
 * with `lockEmoji` (U+274C), and locking or unlocking replaces the status
 * emoji at the front. Both emoji are single characters.
 */
module ChannelName {
  import opened JsStrings

  /** `lockEmoji`. */
  const LockEmoji: char := '\U{274C}'
  /** `unlockEmoji`. */
  const UnlockEmoji: char := '\U{2705}'

  /**
   * `channel.name.startsWith(lockEmoji)`, the only test of whether a channel
   * is locked; the emoji is one character, so this is a test of the first one.
   */
  predicate IsLockedName(name: string) {
    |name| > 0 && name[0] == LockEmoji
  }

  /**
   * `${lockEmoji}${channel.name.replace(unlockEmoji, '')}`: whatever the
   * name was, the new one counts as locked.
   */
  function LockedName(name: string): (r: string)
    ensures IsLockedName(r)
  {
    [LockEmoji] + RemoveFirst(name, UnlockEmoji)
  }

  /** Locking loses one unlock emoji (if there was one), gains one lock emoji and keeps every other character. */
  lemma LockedNameCharacters(name: string)
    ensures multiset(LockedName(name)) == multiset(name) - multiset{UnlockEmoji} + multiset{LockEmoji}
  {
    RemoveFirstCount(name, UnlockEmoji);
  }

  /**
   * `${unlockEmoji}${channel.name.replace(lockEmoji, '')}`: whatever the
   * name was, the new one does not count as locked.
   */
  function UnlockedName(name: string): (r: string)
    ensures !IsLockedName(r)
  {
    [UnlockEmoji] + RemoveFirst(name, LockEmoji)
  }

  /** Unlocking loses one lock emoji (if there was one), gains one unlock emoji and keeps every other character. */
  lemma UnlockedNameCharacters(name: string)
    ensures multiset(UnlockedName(name)) == multiset(name) - multiset{LockEmoji} + multiset{UnlockEmoji}
  {
    RemoveFirstCount(name, LockEmoji);
  }

  /** On a name that carries the unlock emoji in front, locking swaps just that emoji. */
  lemma LockSwapsStatusEmoji(name: string)
    requires name != [] && name[0] == UnlockEmoji
    ensures LockedName(name) == [LockEmoji] + name[1..]
  {
    RemoveFirstAtHead(name, UnlockEmoji);
  }

  /** On a name that carries the lock emoji in front, unlocking swaps just that emoji. */
  lemma UnlockSwapsStatusEmoji(name: string)
    requires name != [] && name[0] == LockEmoji
    ensures UnlockedName(name) == [UnlockEmoji] + name[1..]
  {
    RemoveFirstAtHead(name, LockEmoji);
  }

  /** Unlocking a just-locked name removes the lock emoji that locking put in front. */
  lemma UnlockAfterLock(name: string)
    ensures UnlockedName(LockedName(name)) == [UnlockEmoji] + RemoveFirst(name, UnlockEmoji)
  {
    RemoveFirstAtHead(LockedName(name), LockEmoji);
  }

  /** Locking a just-unlocked name removes the unlock emoji that unlocking put in front. */
  lemma LockAfterUnlock(name: string)
    ensures LockedName(UnlockedName(name)) == [LockEmoji] + RemoveFirst(name, LockEmoji)
  {
    RemoveFirstAtHead(UnlockedName(name), UnlockEmoji);
  }

  /** Lock then unlock gives back a name that started with the unlock emoji. */
  lemma UnlockUndoesLock(name: string)
    requires name != [] && name[0] == UnlockEmoji
    ensures UnlockedName(LockedName(name)) == name
  {
    UnlockAfterLock(name);
    RemoveFirstAtHead(name, UnlockEmoji);
  }

  /** Unlock then lock gives back a name that started with the lock emoji. */
  lemma LockUndoesUnlock(name: string)
    requires name != [] && name[0] == LockEmoji
    ensures LockedName(UnlockedName(name)) == name
  {
    LockAfterUnlock(name);
    RemoveFirstAtHead(name, LockEmoji);
  }
}

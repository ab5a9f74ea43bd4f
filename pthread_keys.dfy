/** The pthread-key registry of macelf/mactrampolines.c:2236-2293. A Linux
    pthread_key_t is a 32-bit number and a Mac one is pointer-sized, so the
    trampolines keep the Mac keys in a growing array and hand out indices
    into it as the Linux keys. The native pthread calls are parameters: what
    pthread_key_create returns, and the results of the native delete,
    setspecific and getspecific for a given Mac key. */
module PthreadKeys {
  import opened Bytes
  import opened Errnos

  /** What the int-returning wrappers return: an errno value of their own,
      or what the native call returned. */
  datatype KeyResult = KeyErr(errno: Errno) | KeyRc(rc: int)

  /** The Mac key behind a Linux key, or None when the index is not below
      the count of keys created. */
  function SlotOf(keys: seq<nat>, lnxKey: nat): (r: Option<nat>)
    ensures r.Some? <==> lnxKey < |keys|
    ensures r.Some? ==> r.value == keys[lnxKey]
  {
    if lnxKey < |keys| then Some(keys[lnxKey]) else None
  }

  /** Creating a key gives the new Mac key to the index that was the count,
      and leaves the key of every other index as it was. */
  lemma SlotAfterCreate(keys: seq<nat>, macKey: nat, lnxKey: nat)
    ensures SlotOf(keys + [macKey], |keys|) == Some(macKey)
    ensures lnxKey != |keys| ==> SlotOf(keys + [macKey], lnxKey) == SlotOf(keys, lnxKey)
  {
  }

  /** pthread_keys and num_pthread_keys. */
  class KeyRegistry {
    /** pthread_keys[0 .. num_pthread_keys). */
    var keys: seq<nat>

    /** The program starts with no keys. */
    constructor ()
      ensures keys == []
    {
      keys := [];
    }

    function Slot(lnxKey: nat): Option<nat>
      reads this
    {
      SlotOf(keys, lnxKey)
    }

    /** mactrampoline_pthread_key_create: ENOMEM when the array cannot grow;
        otherwise the native result, and on 0 the Linux key is the old count
        and the count grows by one. */
    method KeyCreate(reallocOk: bool, nativeRc: int, macKey: nat) returns (r: KeyResult, lnxKey: Option<nat>)
      modifies this
      ensures r == if reallocOk then KeyRc(nativeRc) else KeyErr(ENOMEM)
      ensures lnxKey == if reallocOk && nativeRc == 0 then Some(old(|keys|)) else None
      ensures keys == if reallocOk && nativeRc == 0 then old(keys) + [macKey] else old(keys)
    {
      if !reallocOk {
        return KeyErr(ENOMEM), None;
      }
      var rc := nativeRc;
      lnxKey := None;
      if rc == 0 {
        lnxKey := Some(|keys|);
        keys := keys + [macKey];
      }
      r := KeyRc(rc);
    }

    /** mactrampoline_pthread_key_delete: EINVAL for a key not below the
        count, otherwise the native delete of its Mac key. The slot stays. */
    method KeyDelete(lnxKey: nat, nativeDelete: nat -> int) returns (r: KeyResult)
      ensures r == match Slot(lnxKey)
                   case None => KeyErr(EINVAL)
                   case Some(macKey) => KeyRc(nativeDelete(macKey))
    {
      if lnxKey >= |keys| {
        r := KeyErr(EINVAL);
      } else {
        r := KeyRc(nativeDelete(keys[lnxKey]));
      }
    }

    /** mactrampoline_pthread_setspecific: EINVAL for a key not below the
        count, otherwise the native setspecific of its Mac key. */
    method SetSpecific(lnxKey: nat, value: nat, nativeSet: (nat, nat) -> int) returns (r: KeyResult)
      ensures r == match Slot(lnxKey)
                   case None => KeyErr(EINVAL)
                   case Some(macKey) => KeyRc(nativeSet(macKey, value))
    {
      if lnxKey >= |keys| {
        r := KeyErr(EINVAL);
      } else {
        r := KeyRc(nativeSet(keys[lnxKey], value));
      }
    }

    /** mactrampoline_pthread_getspecific: NULL (0) for a key not below the
        count, otherwise the native getspecific of its Mac key. */
    method GetSpecific(lnxKey: nat, nativeGet: nat -> nat) returns (ptr: nat)
      ensures ptr == match Slot(lnxKey)
                     case None => 0
                     case Some(macKey) => nativeGet(macKey)
    {
      var mackey := if lnxKey < |keys| then Some(keys[lnxKey]) else None;
      ptr := if mackey.Some? then nativeGet(mackey.value) else 0;
    }
  }
}

/** The key manager (components/ApiManagement.tsx): the user's own API keys,
    kept in the store, added only after a length check and a validation
    call, removed after a confirmation, and shown masked. */
module ApiManagement {
  import opened QuizTypes
  import opened Strings
  import Storage
  import GeminiService

  const MinKeyLength: nat := 10
  const TooShortMessage: string := "Key looks too short."
  const InvalidKeyMessage: string := "Invalid API Key. Please check the key and try again."

  /** `keys.filter((_, i) => i !== deleteIndex)`: the list without the
      element at `d`, or unchanged when there is no such element. */
  function RemoveAt(keys: seq<string>, d: int): (r: seq<string>)
    ensures 0 <= d < |keys| ==> r == keys[..d] + keys[d + 1..]
    ensures !(0 <= d < |keys|) ==> r == keys
  {
    if keys == [] then []
    else if d == 0 then keys[1..]
    else
      var rest := RemoveAt(keys[1..], d - 1);
      if 0 < d < |keys| then
        assert keys[1..][..d - 1] == keys[1..d];
        assert [keys[0]] + keys[1..d] == keys[..d];
        [keys[0]] + rest
      else
        [keys[0]] + rest
  }

  /** Deleting removes exactly one occurrence: the multiset of keys loses
      the chosen key and nothing else. */
  lemma RemoveAtMultiset(keys: seq<string>, d: int)
    requires 0 <= d < |keys|
    ensures multiset(RemoveAt(keys, d)) == multiset(keys) - multiset{keys[d]}
    ensures |RemoveAt(keys, d)| == |keys| - 1
  {
    assert RemoveAt(keys, d) == keys[..d] + keys[d + 1..];
    SplitAround(keys, d);
    MultisetWithout(keys[..d], keys[d], keys[d + 1..]);
  }

  lemma SplitAround<T>(s: seq<T>, i: nat)
    requires i < |s|
    ensures s == s[..i] + [s[i]] + s[i + 1..]
  {
  }

  lemma MultisetWithout<T>(before: seq<T>, x: T, after: seq<T>)
    ensures multiset(before + after) == multiset(before + [x] + after) - multiset{x}
  {
    calc {
      multiset(before + [x] + after);
      multiset(before + [x]) + multiset(after);
      multiset(before) + multiset{x} + multiset(after);
    }
    assert multiset(before + after) == multiset(before) + multiset(after);
  }

  /** `maskKey`: a key of ten characters or more shows its first six and
      last four characters around `...`; a shorter one is shown as it is. */
  function MaskKey(key: string): (m: string)
    ensures |m| <= 13
    ensures |key| < MinKeyLength ==> m == key
    ensures |key| >= MinKeyLength ==> |m| == 13 && m[..6] == key[..6] && m[6..9] == "..." && m[9..] == key[|key| - 4..]
  {
    if |key| < MinKeyLength then key else key[..6] + "..." + key[|key| - 4..]
  }

  /** The mask hides the middle: keys that agree on their first six and
      last four characters look the same. */
  lemma MaskHidesMiddle(k1: string, k2: string)
    requires |k1| >= MinKeyLength && |k2| >= MinKeyLength
    requires k1[..6] == k2[..6] && k1[|k1| - 4..] == k2[|k2| - 4..]
    ensures MaskKey(k1) == MaskKey(k2)
  {
  }

  /** The outcome of pressing "add". */
  datatype AddOutcome = TooShort | Rejected | Accepted(key: string)

  /** The decision of `handleAdd`: the trimmed input must have at least ten
      characters, and only then is the validator consulted. */
  function AddDecision(input: string, keyIsValid: bool): (o: AddOutcome)
    ensures o == TooShort <==> |Trim(input)| < MinKeyLength
    ensures o.Accepted? <==> |Trim(input)| >= MinKeyLength && keyIsValid
    ensures o.Accepted? ==> o.key == Trim(input) && Trimmed(o.key) && |o.key| >= MinKeyLength
  {
    var trimmedInput := Trim(input);
    if |trimmedInput| < MinKeyLength then TooShort
    else if keyIsValid then Accepted(trimmedInput)
    else Rejected
  }

  /** A key added here is tried last by the generator, after the keys
      added before it. */
  lemma AddedKeyTriedLast(keys: seq<string>, key: string, env: Option<string>)
    ensures GeminiService.GetAvailableKeys(Storage.Stored(keys + [key]), env) == keys + [key]
  {
  }

  /** Deleting the only stored key makes the generator fall back to the
      deployment's keys. */
  lemma DeletingLastKeyFallsBack(key: string, env: Option<string>)
    ensures GeminiService.GetAvailableKeys(Storage.Stored(RemoveAt([key], 0)), env)
            == GeminiService.GetAvailableKeys(Storage.Absent, env)
  {
  }

  class KeyManager {
    var keys: seq<string>
    var currentInput: string
    var errorMsg: Option<string>
    var deleteIndex: Option<int>
    const store: Storage.Store

    constructor (store: Storage.Store)
      ensures keys == [] && currentInput == "" && errorMsg.None? && deleteIndex.None?
      ensures this.store == store
    {
      keys := [];
      currentInput := "";
      errorMsg := None;
      deleteIndex := None;
      this.store := store;
    }

    /** The mount effect: a stored list replaces the empty one; a missing
        or unreadable one is ignored. */
    method Load()
      modifies this
      ensures store.userKeys.Stored? ==> keys == store.userKeys.value
      ensures !store.userKeys.Stored? ==> keys == old(keys)
      ensures currentInput == old(currentInput) && errorMsg == old(errorMsg) && deleteIndex == old(deleteIndex)
    {
      if store.userKeys.Stored? {
        keys := store.userKeys.value;
      }
    }

    /** `saveKeys`: the list shown and the list stored are the same. */
    method SaveKeys(newKeys: seq<string>)
      modifies this, store
      ensures keys == newKeys && store.userKeys == Storage.Stored(newKeys)
      ensures currentInput == old(currentInput) && errorMsg == old(errorMsg) && deleteIndex == old(deleteIndex)
      ensures store.session == old(store.session) && store.progress == old(store.progress)
      ensures store.history == old(store.history) && store.userName == old(store.userName)
    {
      keys := newKeys;
      store.userKeys := Storage.Stored(newKeys);
    }

    /** `handleAdd`, with `keyIsValid` the answer the validation call gives
        for the trimmed input; the length check and the call are
        `AddDecision`. */
    method HandleAdd(keyIsValid: bool)
      modifies this, store
      ensures AddDecision(old(currentInput), keyIsValid) == TooShort ==>
                errorMsg == Some(TooShortMessage) && keys == old(keys) && currentInput == old(currentInput)
                && store.userKeys == old(store.userKeys)
      ensures AddDecision(old(currentInput), keyIsValid) == Rejected ==>
                errorMsg == Some(InvalidKeyMessage) && keys == old(keys) && currentInput == old(currentInput)
                && store.userKeys == old(store.userKeys)
      ensures AddDecision(old(currentInput), keyIsValid).Accepted? ==>
                var key := AddDecision(old(currentInput), keyIsValid).key;
                && errorMsg.None? && keys == old(keys) + [key] && currentInput == ""
                && store.userKeys == Storage.Stored(keys)
      ensures deleteIndex == old(deleteIndex)
      ensures store.session == old(store.session) && store.progress == old(store.progress)
      ensures store.history == old(store.history) && store.userName == old(store.userName)
    {
      var decision := AddDecision(currentInput, keyIsValid);
      match decision
      case TooShort =>
        errorMsg := Some(TooShortMessage);
      case Rejected =>
        errorMsg := Some(InvalidKeyMessage);
      case Accepted(key) =>
        errorMsg := None;
        SaveKeys(keys + [key]);
        currentInput := "";
    }

    /** The delete button of key `i` asks for confirmation. */
    method RequestDelete(i: int)
      modifies this
      ensures deleteIndex == Some(i) && keys == old(keys) && errorMsg == old(errorMsg)
      ensures currentInput == old(currentInput)
    {
      deleteIndex := Some(i);
    }

    /** The confirmation dialog's cancel button. */
    method CancelDelete()
      modifies this
      ensures deleteIndex.None? && keys == old(keys) && errorMsg == old(errorMsg)
      ensures currentInput == old(currentInput)
    {
      deleteIndex := None;
    }

    /** `confirmDelete`: the chosen key is removed from the list and the
        store, and the dialog closes; without a pending request nothing
        happens. */
    method ConfirmDelete()
      modifies this, store
      ensures old(deleteIndex).None? ==>
                keys == old(keys) && store.userKeys == old(store.userKeys) && deleteIndex.None?
      ensures old(deleteIndex).Some? ==>
                && keys == RemoveAt(old(keys), old(deleteIndex).value)
                && store.userKeys == Storage.Stored(keys) && deleteIndex.None?
      ensures currentInput == old(currentInput) && errorMsg == old(errorMsg)
      ensures store.session == old(store.session) && store.progress == old(store.progress)
      ensures store.history == old(store.history) && store.userName == old(store.userName)
    {
      if deleteIndex.Some? {
        var newKeys := RemoveAt(keys, deleteIndex.value);
        SaveKeys(newKeys);
        deleteIndex := None;
      }
    }
  }
}

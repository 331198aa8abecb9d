/** The `Index` page component as an object: its state hooks are fields the
    handlers update in place, and local storage's `chatUser` entry is the
    field `store`. Each handler is proved to move the object's state exactly
    as the matching transition of `ChatModel` does. */
module ChatSession {
  import opened Text
  import opened ChatModel

  class Index {
    var user: Option<User>
    var username: string
    var messages: seq<Message>
    var newMessage: string
    var store: Option<User>

    /** The object's state as a `ChatModel.State` value. */
    function Snapshot(): State
      reads this
    {
      State(user, username, messages, newMessage, store)
    }

    /** The first render; `saved` is what local storage holds, `t1` and `t2`
        what the seed lines' `new Date()` calls read. */
    constructor (saved: Option<User>, t1: Time, t2: Time)
      ensures Snapshot() == Initial(saved, t1, t2)
    {
      user := None;
      username := "";
      messages := SeedMessages(t1, t2);
      newMessage := "";
      store := saved;
    }

    /** The mount effect that resumes a stored session. */
    method RestoreSavedUser()
      modifies this
      ensures Snapshot() == Restore(old(Snapshot()))
    {
      if store.Some? {
        user := store;
      }
    }

    /** The nickname field's `onChange`. */
    method SetUsername(text: string)
      modifies this
      ensures Snapshot() == TypeName(old(Snapshot()), text)
    {
      username := text;
    }

    /** The message field's `onChange`. */
    method SetNewMessage(text: string)
      modifies this
      ensures Snapshot() == TypeMessage(old(Snapshot()), text)
    {
      newMessage := text;
    }

    /** `handleLogin`; `clock` is what `Date.now()` reads. */
    method HandleLogin(clock: nat)
      modifies this
      ensures Snapshot() == Login(old(Snapshot()), clock)
    {
      var name := Trim(username);
      if name != [] {
        var newUser := User(NatToDecimal(clock), name, IsAdminName(username));
        user := Some(newUser);
        store := Some(newUser);
        username := "";
      }
    }

    /** `sendMessage`; `clock` is what `Date.now()` reads and `at` what
        `new Date()` reads. */
    method SendMessage(clock: nat, at: Time)
      modifies this
      ensures Snapshot() == Send(old(Snapshot()), clock, at)
    {
      var text := Trim(newMessage);
      if text != [] && user.Some? {
        var message := Message(NatToDecimal(clock), text, user.value, at);
        messages := messages + [message];
        newMessage := "";
      }
    }

    /** `logout`. */
    method Logout()
      modifies this
      ensures Snapshot() == ChatModel.Logout(old(Snapshot()))
    {
      user := None;
      store := None;
    }
  }
}

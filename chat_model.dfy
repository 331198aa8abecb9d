/** The session-and-message state of the chat page as a value: one transition
    function per handler of the `Index` component, the invariant they keep,
    and what several of them do together. */
module ChatModel {
  import opened Text

  datatype Option<T> = None | Some(value: T)

  /** A chat identity: `id` is the login clock reading as a decimal string,
      `name` the trimmed nickname, `isAdmin` fixed when the identity is made. */
  datatype User = User(id: string, name: string, isAdmin: bool)

  /** Milliseconds since the epoch, as a `new Date()` reads them. */
  type Time = int

  /** A chat line: `id` is the send clock reading as a decimal string, and
      `user` is the author's identity when it was sent. The page stores a
      reference to the session's user object; as no handler ever changes a
      `User` after making it, holding it by value here is the same. */
  datatype Message = Message(id: string, text: string, user: User, timestamp: Time)

  /** What the handlers read and write: the component's state hooks and the
      `chatUser` entry of local storage (`store`). */
  datatype State = State(
    user: Option<User>,
    username: string,
    messages: seq<Message>,
    newMessage: string,
    store: Option<User>)

  /** The admin rule: the lower-cased name contains "admin". */
  function IsAdminName(name: string): (b: bool)
    ensures b <==> Occurs(Lower(name), "admin")
  {
    Contains(Lower(name), "admin")
  }

  /** The two example lines the log starts with; `t1` and `t2` are what the
      two `new Date()` calls of the first render read. */
  function SeedMessages(t1: Time, t2: Time): (ms: seq<Message>)
    ensures |ms| == 2 && ms[0].timestamp == t1 && ms[1].timestamp == t2
    ensures forall i :: 0 <= i < |ms| ==> MessageOk(ms[i])
    ensures ms[0].user.name == "PlayerOne" && ms[0].user.isAdmin
    ensures ms[1].user.name == "GamerX" && !ms[1].user.isAdmin
  {
    [ Message("1", "GG everyone, that was close ome!", User("admin", "PlayerOne", true), t1),
      Message("2", "Totally agree! Great game \U{1F3AE}", User("user1", "GamerX", false), t2) ]
  }

  /** The first render: nobody is signed in, both inputs are empty and the log
      holds the seed lines; local storage holds whatever an earlier visit left. */
  function Initial(saved: Option<User>, t1: Time, t2: Time): (st: State)
    ensures st.user.None? && st.username == [] && st.newMessage == []
    ensures st.messages == SeedMessages(t1, t2) && st.store == saved
  {
    State(None, "", SeedMessages(t1, t2), "", saved)
  }

  /** The mount effect: a stored record becomes the session user; without one
      the session stays as it is. Nothing else changes. */
  function Restore(st: State): (r: State)
    ensures st.store.Some? ==> r.user == st.store
    ensures st.store.None? ==> r.user == st.user
    ensures r.store == st.store && r.messages == st.messages
    ensures r.username == st.username && r.newMessage == st.newMessage
  {
    if st.store.Some? then st.(user := st.store) else st
  }

  /** Typing into the nickname field. */
  function TypeName(st: State, text: string): (r: State)
    ensures r.username == text
    ensures r.user == st.user && r.store == st.store && r.messages == st.messages
    ensures r.newMessage == st.newMessage
  {
    st.(username := text)
  }

  /** Typing into the message field. */
  function TypeMessage(st: State, text: string): (r: State)
    ensures r.newMessage == text
    ensures r.user == st.user && r.store == st.store && r.messages == st.messages
    ensures r.username == st.username
  {
    st.(newMessage := text)
  }

  /** A nickname as login makes it: non-empty, already trimmed, and flagged as
      admin exactly when the admin rule holds of it. */
  predicate UserOk(u: User) {
    u.name != [] && IsTrimmed(u.name) && u.isAdmin == IsAdminName(u.name)
  }

  /** The admin flag is computed from the raw input while the stored name is
      the trimmed one; the two give the same answer. */
  lemma AdminFlagIgnoresPadding(raw: string)
    ensures IsAdminName(raw) == IsAdminName(Trim(raw))
  {
    var p := "admin";
    assert forall i :: 0 <= i < |p| ==> !IsSpace(p[i]);
    ContainsLowerIgnoresPadding(raw, p);
  }

  /** `handleLogin`: a nickname that is only whitespace is ignored; otherwise a
      new identity named by the trimmed nickname becomes the session user and
      the stored record, and the nickname field is cleared. */
  function Login(st: State, clock: nat): (r: State)
    ensures AllSpace(st.username) ==> r == st
    ensures !AllSpace(st.username) ==>
      && r.user == Some(User(NatToDecimal(clock), Trim(st.username), IsAdminName(Trim(st.username))))
      && r.store == r.user
      && UserOk(r.user.value)
      && r == st.(user := r.user, store := r.store, username := "")
  {
    var name := Trim(st.username);
    if name != [] then
      AdminFlagIgnoresPadding(st.username);
      var u := User(NatToDecimal(clock), name, IsAdminName(st.username));
      st.(user := Some(u), store := Some(u), username := "")
    else
      st
  }

  /** `sendMessage`: with whitespace-only text or nobody signed in nothing
      happens; otherwise exactly one line, carrying the trimmed text and the
      session user as author, goes on the end of the log and the message field
      is cleared. */
  function Send(st: State, clock: nat, at: Time): (r: State)
    ensures AllSpace(st.newMessage) || st.user.None? ==> r == st
    ensures !AllSpace(st.newMessage) && st.user.Some? ==>
      && |r.messages| == |st.messages| + 1
      && r.messages[..|st.messages|] == st.messages
      && r.messages[|st.messages|] == Message(NatToDecimal(clock), Trim(st.newMessage), st.user.value, at)
      && r == st.(messages := r.messages, newMessage := "")
  {
    var text := Trim(st.newMessage);
    if text != [] && st.user.Some? then
      var m := Message(NatToDecimal(clock), text, st.user.value, at);
      st.(messages := st.messages + [m], newMessage := "")
    else
      st
  }

  /** `logout`: the session user and the stored record are gone; the log and
      both inputs stay as they were. */
  function Logout(st: State): (r: State)
    ensures r.user.None? && r.store.None?
    ensures r.messages == st.messages && r.username == st.username && r.newMessage == st.newMessage
  {
    st.(user := None, store := None)
  }

  /** What the person at the page can do, one handler run per event. */
  datatype Event =
    | Mount
    | EditName(text: string)
    | SubmitLogin(clock: nat)
    | EditMessage(text: string)
    | SubmitMessage(clock: nat, at: Time)
    | ClickLogout

  /** One handler run. Only a send touches the log, and only login and
      logout touch local storage. */
  function Step(st: State, e: Event): (r: State)
    ensures !e.SubmitMessage? ==> r.messages == st.messages
    ensures !e.SubmitLogin? && !e.ClickLogout? ==> r.store == st.store
  {
    match e
    case Mount => Restore(st)
    case EditName(text) => TypeName(st, text)
    case SubmitLogin(clock) => Login(st, clock)
    case EditMessage(text) => TypeMessage(st, text)
    case SubmitMessage(clock, at) => Send(st, clock, at)
    case ClickLogout => Logout(st)
  }

  /** The state after the events `evs`, one after the other. Without a send
      the log stays as it was; without a login or logout, so does storage. */
  function Run(st: State, evs: seq<Event>): (r: State)
    ensures (forall i :: 0 <= i < |evs| ==> !evs[i].SubmitMessage?) ==> r.messages == st.messages
    ensures (forall i :: 0 <= i < |evs| ==> !evs[i].SubmitLogin? && !evs[i].ClickLogout?) ==> r.store == st.store
    decreases |evs|
  {
    if evs == [] then st else Run(Step(st, evs[0]), evs[1..])
  }

  /** A log line's text is non-empty and trimmed. */
  predicate MessageOk(m: Message) {
    m.text != [] && IsTrimmed(m.text)
  }

  /** The invariant: a signed-in user is the stored record, the stored record
      is one login could have made, and every line has trimmed, non-empty text. */
  predicate Valid(st: State) {
    && (st.user.Some? ==> st.user == st.store)
    && (st.store.Some? ==> UserOk(st.store.value))
    && forall i :: 0 <= i < |st.messages| ==> MessageOk(st.messages[i])
  }

  /** Every line from index `k` on was written by an identity login made. */
  predicate AuthoredFrom(ms: seq<Message>, k: nat) {
    forall i :: k <= i < |ms| ==> UserOk(ms[i].user)
  }

  /** The first render is valid when local storage is empty or holds a
      record login made. */
  lemma InitialValid(saved: Option<User>, t1: Time, t2: Time)
    requires saved.None? || UserOk(saved.value)
    ensures Valid(Initial(saved, t1, t2))
  {
  }

  lemma StepPreservesValid(st: State, e: Event)
    requires Valid(st)
    ensures Valid(Step(st, e))
    ensures AuthoredFrom(Step(st, e).messages, |st.messages|)
  {
  }

  /** Every sequence of handler runs keeps the invariant, and every line it
      adds carries a well-formed author. */
  lemma {:induction false} RunPreservesValid(st: State, evs: seq<Event>)
    requires Valid(st)
    ensures Valid(Run(st, evs))
    ensures AuthoredFrom(Run(st, evs).messages, |st.messages|)
    decreases |evs|
  {
    if evs != [] {
      var next := Step(st, evs[0]);
      StepPreservesValid(st, evs[0]);
      StepAppendOnly(st, evs[0]);
      RunPreservesValid(next, evs[1..]);
      RunAppendOnly(next, evs[1..]);
      var fin := Run(next, evs[1..]).messages;
      forall i | |st.messages| <= i < |fin| ensures UserOk(fin[i].user) {
        if i < |next.messages| {
          assert fin[i] == fin[..|next.messages|][i];
        }
      }
    }
  }

  lemma StepAppendOnly(st: State, e: Event)
    ensures |Step(st, e).messages| >= |st.messages|
    ensures Step(st, e).messages[..|st.messages|] == st.messages
  {
  }

  /** The log only grows at its end: whatever happens, every earlier line
      keeps its place, text, author name and admin flag. */
  lemma {:induction false} RunAppendOnly(st: State, evs: seq<Event>)
    ensures |Run(st, evs).messages| >= |st.messages|
    ensures Run(st, evs).messages[..|st.messages|] == st.messages
    decreases |evs|
  {
    if evs != [] {
      var next := Step(st, evs[0]);
      StepAppendOnly(st, evs[0]);
      RunAppendOnly(next, evs[1..]);
      var fin := Run(next, evs[1..]).messages;
      assert fin[..|st.messages|] == fin[..|next.messages|][..|st.messages|];
    }
  }

  /** Signing out and in under another nickname leaves every earlier line with
      the author it had when it was sent. */
  lemma AttributionSurvivesRelogin(st: State, name: string, clock: nat, later: seq<Event>, i: nat)
    requires i < |st.messages|
    ensures var fin := Run(st, [ClickLogout, EditName(name), SubmitLogin(clock)] + later);
      i < |fin.messages| && fin.messages[i].user == st.messages[i].user
  {
    RunAppendOnly(st, [ClickLogout, EditName(name), SubmitLogin(clock)] + later);
    var fin := Run(st, [ClickLogout, EditName(name), SubmitLogin(clock)] + later);
    assert fin.messages[i] == fin.messages[..|st.messages|][i];
  }

  /** Two sends in a row append their lines in the order sent, whatever the
      clock reads: equal readings give equal ids, and nothing is dropped or
      reordered. */
  lemma SendTwiceInOrder(st: State, c1: nat, a1: Time, text2: string, c2: nat, a2: Time)
    requires st.user.Some? && !AllSpace(st.newMessage) && !AllSpace(text2)
    ensures Send(TypeMessage(Send(st, c1, a1), text2), c2, a2).messages
      == st.messages + [Message(NatToDecimal(c1), Trim(st.newMessage), st.user.value, a1),
                        Message(NatToDecimal(c2), Trim(text2), st.user.value, a2)]
    ensures c1 == c2 ==>
      (Send(TypeMessage(Send(st, c1, a1), text2), c2, a2).messages[|st.messages|].id
       == Send(TypeMessage(Send(st, c1, a1), text2), c2, a2).messages[|st.messages| + 1].id)
  {
  }

  /** Ids are the clock readings in decimal: two lines share an id exactly
      when they were sent in the same millisecond. */
  lemma MessageIdsFollowClock(st: State, c1: nat, a1: Time, c2: nat, a2: Time)
    requires st.user.Some? && !AllSpace(st.newMessage)
    ensures Send(st, c1, a1).messages[|st.messages|].id == Send(st, c2, a2).messages[|st.messages|].id
            <==> c1 == c2
  {
    DecimalInjective(c1, c2);
  }

  /** Once the mount effect has run, the session user and the stored record
      agree, and the effect running a second time changes nothing. */
  lemma MountedSessionMatchesStore(st: State)
    requires Valid(st)
    ensures Restore(st).user == Restore(st).store == st.store
    ensures Restore(Restore(st)) == Restore(st)
  {
  }

  /** Signing out twice is the same as signing out once. */
  lemma LogoutIdempotent(st: State)
    ensures Logout(Logout(st)) == Logout(st)
  {
  }

  /** The stored record survives a reload: after a login, a fresh page that
      runs the mount effect is signed in as that same identity; after a
      logout it is anonymous. */
  lemma ReloadRestoresSession(st: State, clock: nat, t1: Time, t2: Time)
    ensures var li := Login(st, clock);
      !AllSpace(st.username) ==> Restore(Initial(li.store, t1, t2)).user == li.user
    ensures Restore(Initial(Logout(st).store, t1, t2)).user.None?
  {
  }

  /** A visit with nothing stored starts anonymous, with exactly the two seed
      lines: PlayerOne, an admin, and GamerX, not one. */
  lemma FreshStart(t1: Time, t2: Time)
    ensures var st := Restore(Initial(None, t1, t2));
      && st.user.None? && |st.messages| == 2
      && st.messages[0].user.name == "PlayerOne" && st.messages[0].user.isAdmin
      && st.messages[1].user.name == "GamerX" && !st.messages[1].user.isAdmin
  {
  }

  /** The admin rule on the two example nicknames. */
  lemma AdminExampleYes()
    ensures IsAdminName("SuperAdmin99")
  {
    var a := Lower("SuperAdmin99");
    assert a[5..10] == "admin";
    assert OccursAt(a, "admin", 5);
  }

  lemma AdminExampleNo()
    ensures !IsAdminName("GamerX")
  {
    var g := Lower("GamerX");
    assert g[0] == 'g' && g[1] == 'a' && g[2] == 'm';
    assert !Occurs(g, "admin");
  }

  /** The seed author PlayerOne is flagged admin by hand: the admin rule
      does not hold of that name. */
  lemma SeedAdminIsNotByRule(t1: Time, t2: Time)
    ensures SeedMessages(t1, t2)[0].user.isAdmin && !IsAdminName(SeedMessages(t1, t2)[0].user.name)
    ensures !UserOk(SeedMessages(t1, t2)[0].user)
  {
    var l := Lower("PlayerOne");
    assert l[0] == 'p' && l[1] == 'l' && l[2] == 'a' && l[3] == 'y' && l[4] == 'e';
    assert !Occurs(l, "admin");
  }

  /** Logging in as "SuperAdmin99", even with spaces around it, makes an admin. */
  lemma LoginExampleAdmin(st: State, clock: nat)
    requires st.username == "  SuperAdmin99 "
    ensures Login(st, clock).user == Some(User(NatToDecimal(clock), "SuperAdmin99", true))
  {
    var padded := st.username;
    assert !IsSpace(padded[2]);
    assert Padded(padded, 2, "SuperAdmin99") by {
      assert padded[2..14] == "SuperAdmin99";
    }
    TrimUnique(padded, 2, "SuperAdmin99");
    AdminExampleYes();
  }

  /** Logging in as "GamerX" makes an ordinary user. */
  lemma LoginExampleNotAdmin(st: State, clock: nat)
    requires st.username == "GamerX"
    ensures Login(st, clock).user == Some(User(NatToDecimal(clock), "GamerX", false))
  {
    var plain := st.username;
    assert !IsSpace(plain[0]);
    assert Padded(plain, 0, plain) by {
      assert plain[0..6] == plain;
    }
    TrimUnique(plain, 0, plain);
    AdminExampleNo();
  }
}

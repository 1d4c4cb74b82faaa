/** Which message a receiver gets (ipc/msg.c, convert_mode, testmsg and the search of sys_msgrcv). */
module MsgSelect {
  import opened Lists

  const LONG_MAX := 0x7fff_ffff
  const LONG_MIN := -LONG_MAX - 1
  const INT_MAX := 0x7fff_ffff

  datatype Mode = SearchAny | SearchEqual | SearchNotEqual | SearchLessEqual

  /** A `msg_msg`: its type, the size of its text, and the text in pieces. `id` tells messages apart;
      the queue gives out increasing ones. */
  datatype Message = Message(id: nat, mtype: int, ts: nat, head: seq<int>, segs: seq<seq<int>>)

  /** What a receiver asks for, once `msgtyp` is converted. */
  datatype Request = Request(mode: Mode, mtype: int, msgsz: nat, noerror: bool)

  function Negated(n: int): int { if n == LONG_MIN then LONG_MIN else -n }

  function ConvertMode(msgtyp: int, except: bool): (Mode, int) {
    if msgtyp == 0 then (SearchAny, 0)
    else if msgtyp < 0 then (SearchLessEqual, Negated(msgtyp))
    else if except then (SearchNotEqual, msgtyp)
    else (SearchEqual, msgtyp)
  }

  predicate TestMsg(m: Message, mtype: int, mode: Mode) {
    match mode
    case SearchAny => true
    case SearchLessEqual => m.mtype <= mtype
    case SearchEqual => m.mtype == mtype
    case SearchNotEqual => m.mtype != mtype
  }

  predicate Matches(m: Message, r: Request) { TestMsg(m, r.mtype, r.mode) }

  predicate TypeOk(m: Message) { 1 <= m.mtype <= LONG_MAX }

  /** What msgrcv() promises about `msgtyp`: 0 asks for any message, a positive number for that
      type or with MSG_EXCEPT for any other, a negative one for a type up to its magnitude. */
  predicate Wanted(m: Message, msgtyp: int, except: bool) {
    if msgtyp == 0 then true
    else if msgtyp < 0 then m.mtype <= -msgtyp
    else if except then m.mtype != msgtyp
    else m.mtype == msgtyp
  }

  /** The promise is kept for every `msgtyp` but the least one, whose magnitude does not fit. */
  lemma {:induction false} ConvertedIffFits(msgtyp: int, except: bool)
    requires LONG_MIN <= msgtyp <= LONG_MAX
    ensures (forall m :: TypeOk(m) ==>
      (TestMsg(m, ConvertMode(msgtyp, except).1, ConvertMode(msgtyp, except).0) <==> Wanted(m, msgtyp, except)))
      <==> msgtyp != LONG_MIN
  {
    if msgtyp == LONG_MIN {
      var m := Message(0, 1, 0, [], []);
      assert TypeOk(m) && Wanted(m, msgtyp, except) &&
        !TestMsg(m, ConvertMode(msgtyp, except).1, ConvertMode(msgtyp, except).0);
    }
  }

  /** `a` comes before `b` for a request: of two matching messages, the lesser type for a bounded
      search, else the earlier place. */
  predicate Better(s: seq<Message>, mode: Mode, a: nat, b: nat)
    requires a < |s| && b < |s|
  {
    if mode == SearchLessEqual && s[a].mtype != s[b].mtype then s[a].mtype < s[b].mtype else a <= b
  }

  /** The message a request selects. */
  ghost predicate Selected(s: seq<Message>, mode: Mode, mtype: int, found: Option<nat>) {
    match found
    case None => forall j :: 0 <= j < |s| ==> !TestMsg(s[j], mtype, mode)
    case Some(i) =>
      && i < |s| && TestMsg(s[i], mtype, mode)
      && forall j :: 0 <= j < |s| && TestMsg(s[j], mtype, mode) ==> Better(s, mode, i, j)
  }

  lemma {:induction false} SelectedOnce(s: seq<Message>, mode: Mode, mtype: int, a: Option<nat>, b: Option<nat>)
    requires Selected(s, mode, mtype, a) && Selected(s, mode, mtype, b)
    ensures a == b
  {
    if a.Some? && b.Some? { assert Better(s, mode, a.value, b.value) && Better(s, mode, b.value, a.value); }
  }

  /** The search: a bounded one narrows its bound at every hit, and stops at type 1. */
  method FindMessage(s: seq<Message>, mode: Mode, mtype: int) returns (found: Option<nat>)
    requires forall m :: m in s ==> TypeOk(m)
    ensures Selected(s, mode, mtype, found)
  {
    found := None;
    var bound := mtype;
    var i := 0;
    while i < |s|
      invariant i <= |s|
      invariant found.None? ==> bound == mtype && forall j :: 0 <= j < i ==> !TestMsg(s[j], mtype, mode)
      invariant found.Some? ==>
        && mode == SearchLessEqual && found.value < i && TestMsg(s[found.value], mtype, mode)
        && bound == s[found.value].mtype - 1
        && forall j :: 0 <= j < i && TestMsg(s[j], mtype, mode) ==> Better(s, mode, found.value, j)
    {
      if TestMsg(s[i], bound, mode) {
        found := Some(i);
        if mode == SearchLessEqual && s[i].mtype != 1 {
          bound := s[i].mtype - 1;
        } else {
          assert TypeOk(s[i]);
          assert mode == SearchLessEqual ==> forall j :: 0 <= j < |s| ==> TypeOk(s[j]) && s[i].mtype <= s[j].mtype;
          return;
        }
      }
      i := i + 1;
    }
  }
}

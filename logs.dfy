/**
 * Log (soupmigration/base.py): a logger that stores each message once and
 * collects, for every message, the items it affected and the exceptions
 * given with its first occurrence.
 */
module Logs {
  import opened Wrappers
  import opened Values

  /** One entry of `log_messages`: the dict with keys msg, affected and exceptions. */
  datatype LogItem = LogItem(msg: string, affected: seq<string>, exceptions: seq<string>)

  /**
   * The `affected` keyword of Log.add: left out, a single value, or a
   * list, set or tuple of strings (given in iteration order).
   */
  datatype Affected = NoAffected | Scalar(value: Cell) | Collection(items: seq<string>)

  /**
   * `affected or 'ALL'`, then a value that is not a collection wrapped in a
   * one-element list of its unicode(): never empty, "ALL" when nothing truthy
   * was given.
   */
  function AffectedList(a: Affected): (r: seq<string>)
    ensures r != []
    ensures a.Collection? && a.items != [] ==> r == a.items
    ensures a.Scalar? && Truthy(a.value) ==> r == [Render(a.value)]
    ensures a.NoAffected? || (a.Scalar? && !Truthy(a.value)) || (a.Collection? && a.items == []) ==> r == ["ALL"]
  {
    match a
    case NoAffected => ["ALL"]
    case Scalar(c) => if Truthy(c) then [Render(c)] else ["ALL"]
    case Collection(items) => if items == [] then ["ALL"] else items
  }

  /**
   * The entry Log.add builds for a message not logged before. The exception
   * is given as its text; an empty one counts as absent, as `if exception`
   * treats an empty string (an exception object is always truthy).
   */
  function NewItem(msg: string, affected: Affected, exception: Option<string>): LogItem
  {
    var exceptions := if exception.Some? && exception.value != "" then [exception.value] else [];
    LogItem(msg, AffectedList(affected), exceptions)
  }

  /** Appending, in order, each item of `items` not yet in `list`. */
  function AppendNew(list: seq<string>, items: seq<string>): seq<string>
    decreases |items|
  {
    if items == [] then list
    else AppendNew(if items[0] in list then list else list + [items[0]], items[1..])
  }

  /**
   * The strings of `items` that are neither in `list` nor earlier in
   * `items`, in the order of `items`.
   */
  function Fresh(list: seq<string>, items: seq<string>): seq<string>
  {
    if items == [] then []
    else
      var init, x := items[..|items| - 1], items[|items| - 1];
      Fresh(list, init) + if x in list || x in init then [] else [x]
  }

  /** The index of the first entry with message `msg`, if any. */
  function FindMsg(messages: seq<LogItem>, msg: string): (r: Option<nat>)
    ensures r.None? ==> forall i :: 0 <= i < |messages| ==> messages[i].msg != msg
    ensures r.Some? ==> r.value < |messages| && messages[r.value].msg == msg
    ensures r.Some? ==> forall i :: 0 <= i < r.value ==> messages[i].msg != msg
  {
    if messages == [] then None
    else if messages[0].msg == msg then Some(0)
    else
      var rest := FindMsg(messages[1..], msg);
      assert forall i :: 1 <= i < |messages| ==> messages[1..][i - 1] == messages[i];
      if rest.None? then None else Some(rest.value + 1)
  }

  /** `log_messages` after Log.add(msg=msg, affected=affected, exception=exception). */
  function AddEntry(messages: seq<LogItem>, msg: string, affected: Affected, exception: Option<string>): seq<LogItem>
  {
    match FindMsg(messages, msg)
    case None => messages + [NewItem(msg, affected, exception)]
    case Some(i) =>
      messages[i := messages[i].(affected := AppendNew(messages[i].affected, AffectedList(affected)))]
  }

  /** No message is logged twice. */
  predicate UniqueMsgs(messages: seq<LogItem>)
  {
    forall i, j :: 0 <= i < j < |messages| ==> messages[i].msg != messages[j].msg
  }

  /** No string occurs twice. */
  predicate NoDuplicates(list: seq<string>)
  {
    forall i, j :: 0 <= i < j < |list| ==> list[i] != list[j]
  }

  /**
   * AppendNew keeps the list as a prefix, ends up holding exactly the
   * strings of both, and adds no duplicate to a list without one.
   */
  lemma {:induction false} AppendNewSpec(list: seq<string>, items: seq<string>)
    ensures |list| <= |AppendNew(list, items)| && AppendNew(list, items)[..|list|] == list
    ensures forall x :: x in AppendNew(list, items) <==> x in list || x in items
    ensures NoDuplicates(list) ==> NoDuplicates(AppendNew(list, items))
    decreases |items|
  {
    if items != [] {
      var next := if items[0] in list then list else list + [items[0]];
      AppendNewSpec(next, items[1..]);
      assert items == [items[0]] + items[1..];
      assert next[..|list|] == list;
      if NoDuplicates(list) && items[0] !in list {
        forall i, j | 0 <= i < j < |next| ensures next[i] != next[j] {
          if j == |list| {
            assert next[i] == list[i];
          }
        }
      }
    }
  }

  /** Appending one more item: it is added at the end unless already present. */
  lemma {:induction false} AppendNewLast(list: seq<string>, items: seq<string>, x: string)
    ensures AppendNew(list, items + [x]) ==
            if x in AppendNew(list, items) then AppendNew(list, items) else AppendNew(list, items) + [x]
    decreases |items|
  {
    if items == [] {
      assert [x][1..] == [];
    } else {
      var next := if items[0] in list then list else list + [items[0]];
      assert (items + [x])[1..] == items[1..] + [x];
      AppendNewLast(next, items[1..], x);
    }
  }

  /** AppendNew adds exactly the fresh items, in the order they first occur in `items`. */
  lemma {:induction false} AppendNewFresh(list: seq<string>, items: seq<string>)
    ensures AppendNew(list, items) == list + Fresh(list, items)
    decreases |items|
  {
    if items == [] {
      assert list + [] == list;
    } else {
      var init, x := items[..|items| - 1], items[|items| - 1];
      assert items == init + [x];
      AppendNewFresh(list, init);
      AppendNewSpec(list, init);
      AppendNewLast(list, init, x);
    }
  }

  /** Adding to a log whose messages are unique keeps them unique. */
  lemma AddKeepsUnique(messages: seq<LogItem>, msg: string, affected: Affected, exception: Option<string>)
    requires UniqueMsgs(messages)
    ensures UniqueMsgs(AddEntry(messages, msg, affected, exception))
  {
  }

  /** A message logged for the first time is appended, with its exception if one was given. */
  lemma AddNewMessage(messages: seq<LogItem>, msg: string, affected: Affected, exception: Option<string>)
    requires forall i :: 0 <= i < |messages| ==> messages[i].msg != msg
    ensures AddEntry(messages, msg, affected, exception) == messages + [NewItem(msg, affected, exception)]
    ensures exception.Some? && exception.value != "" ==>
      AddEntry(messages, msg, affected, exception)[|messages|].exceptions == [exception.value]
  {
  }

  /**
   * Logging a known message again changes only that entry: the affected
   * items not yet listed are added at its end, in order, and the exception
   * is ignored.
   */
  lemma AddKnownMessage(messages: seq<LogItem>, msg: string, affected: Affected, exception: Option<string>, i: nat)
    requires UniqueMsgs(messages)
    requires i < |messages| && messages[i].msg == msg
    ensures var r := AddEntry(messages, msg, affected, exception);
            && |r| == |messages|
            && (forall j :: 0 <= j < |messages| && j != i ==> r[j] == messages[j])
            && r[i].msg == msg && r[i].exceptions == messages[i].exceptions
            && |messages[i].affected| <= |r[i].affected|
            && r[i].affected[..|messages[i].affected|] == messages[i].affected
            && (forall x :: x in r[i].affected <==> x in messages[i].affected || x in AffectedList(affected))
            && r[i].affected == messages[i].affected + Fresh(messages[i].affected, AffectedList(affected))
  {
    AppendNewSpec(messages[i].affected, AffectedList(affected));
    AppendNewFresh(messages[i].affected, AffectedList(affected));
  }

  /** The messages logged. */
  function Msgs(messages: seq<LogItem>): set<string>
  {
    set i | 0 <= i < |messages| :: messages[i].msg
  }

  /** Once logged, a message stays logged: the set of messages only grows, by `msg`. */
  lemma AddMessages(messages: seq<LogItem>, msg: string, affected: Affected, exception: Option<string>)
    ensures Msgs(AddEntry(messages, msg, affected, exception)) == Msgs(messages) + {msg}
  {
    var r := AddEntry(messages, msg, affected, exception);
    match FindMsg(messages, msg)
    case None =>
      assert r[|messages|].msg == msg;
      assert forall i :: 0 <= i < |messages| ==> r[i] == messages[i];
    case Some(i) =>
      assert r[i].msg == msg;
      assert forall j :: 0 <= j < |messages| ==> r[j].msg == messages[j].msg;
  }

  /** The logger: `log_messages`, updated in place by add. */
  class Log {
    var messages: seq<LogItem>

    /** Log(): no messages. */
    constructor ()
      ensures messages == []
    {
      messages := [];
    }

    /**
     * Log.add(msg=msg, affected=affected, exception=exception): a known
     * message gets the new affected items, an unknown one is appended.
     */
    method Add(msg: string, affected: Affected, exception: Option<string>)
      modifies this
      ensures messages == AddEntry(old(messages), msg, affected, exception)
    {
      var items := AffectedList(affected);
      var i := 0;
      while i < |messages|
        invariant 0 <= i <= |messages| && messages == old(messages)
        invariant forall j :: 0 <= j < i ==> messages[j].msg != msg
      {
        if messages[i].msg == msg {
          var list := messages[i].affected;
          var k := 0;
          while k < |items|
            invariant 0 <= k <= |items|
            invariant AppendNew(list, items[k..]) == AppendNew(messages[i].affected, items)
          {
            assert items[k..][1..] == items[k + 1..];
            if items[k] !in list {
              list := list + [items[k]];
            }
            k := k + 1;
          }
          assert AppendNew(list, items[k..]) == list;
          assert FindMsg(messages, msg) == Some(i);
          messages := messages[i := messages[i].(affected := list)];
          return;
        }
        i := i + 1;
      }
      messages := messages + [NewItem(msg, affected, exception)];
    }
  }
}

/**
 * The rendered message log of the chat client: the children of the
 * messages container. Every `displayMessage` appends one node at the end
 * and, when the container then holds more than 500 children, removes the
 * first (oldest) one.
 */
module MessageLog {

  const MaxMessages: nat := 500

  /** One `displayMessage` on the log: append `node`, then drop the oldest child if over the limit. */
  function AppendBounded<T>(log: seq<T>, node: T): (r: seq<T>)
    // the survivors are the newest ones, in their original order, ending with `node`
    ensures |r| >= 1 && |r| <= |log| + 1 && r == (log + [node])[|log| + 1 - |r|..]
    // at most one (the oldest) child is removed
    ensures |r| >= |log|
    // a log below the limit loses nothing
    ensures |log| < MaxMessages ==> |r| == |log| + 1
    // the limit is kept
    ensures |log| <= MaxMessages ==> |r| <= MaxMessages
  {
    var appended := log + [node];
    if |appended| > MaxMessages then appended[1..] else appended
  }

  /** The newest `MaxMessages` entries of `s`. */
  function Newest<T>(s: seq<T>): (r: seq<T>)
    ensures |r| <= MaxMessages
    ensures |r| == if |s| <= MaxMessages then |s| else MaxMessages
  {
    if |s| <= MaxMessages then s else s[|s| - MaxMessages..]
  }

  /** The log after displaying each of `nodes` in turn. */
  function AppendAll<T>(log: seq<T>, nodes: seq<T>): seq<T>
    decreases |nodes|
  {
    if nodes == [] then log else AppendAll(AppendBounded(log, nodes[0]), nodes[1..])
  }

  /** Any suffix of `b` that is at least `MaxMessages` long has the same newest entries as `b`. */
  lemma NewestOfLongSuffix<T>(a: seq<T>, b: seq<T>)
    requires |a| <= |b| && a == b[|b| - |a|..]
    requires |a| >= MaxMessages || a == b
    ensures Newest(a) == Newest(b)
  {
    if a != b {
      assert a[|a| - MaxMessages..] == b[|b| - MaxMessages..];
    }
  }

  /**
   * Displaying any number of messages on a log within the limit leaves exactly
   * the newest `MaxMessages` of the old log followed by the new nodes, in order:
   * first-in, first-out eviction.
   */
  lemma {:induction false} AppendAllKeepsNewest<T>(log: seq<T>, nodes: seq<T>)
    requires |log| <= MaxMessages
    ensures AppendAll(log, nodes) == Newest(log + nodes)
    decreases |nodes|
  {
    if nodes == [] {
      assert log + nodes == log;
    } else {
      var next := AppendBounded(log, nodes[0]);
      AppendAllKeepsNewest(next, nodes[1..]);
      assert (log + [nodes[0]]) + nodes[1..] == log + nodes;
      var whole := log + nodes;
      var a := next + nodes[1..];
      assert a == whole[|whole| - |a|..];
      NewestOfLongSuffix(a, whole);
    }
  }

  /**
   * After `MaxMessages` or more further displays, none of the earlier entries
   * is left: the log is exactly the last `MaxMessages` nodes displayed.
   */
  lemma {:induction false} OverflowKeepsLast<T>(log: seq<T>, nodes: seq<T>)
    requires |log| <= MaxMessages && |nodes| >= MaxMessages
    ensures AppendAll(log, nodes) == nodes[|nodes| - MaxMessages..]
  {
    AppendAllKeepsNewest(log, nodes);
    var whole := log + nodes;
    var d := |log|;
    assert forall k :: |whole| - MaxMessages <= k < |whole| ==> whole[k] == nodes[k - d];
    assert whole[|whole| - MaxMessages..] == nodes[|nodes| - MaxMessages..];
  }
}

/** The collaboration logs of an issue: comments, the activity feed and the
    change history. Each write validates its payload, fills in defaults,
    puts the new record first and cuts the log to a fixed length. */
module Collaboration {
  import opened Wrappers
  import opened Text
  import opened Sorting

  const CommentCapacity: nat := 100
  const ActivityCapacity: nat := 50
  const HistoryCapacity: nat := 200

  /** The name recorded when the caller gives none. */
  const UnknownUser: string := "Unknown User"

  datatype Comment = Comment(id: nat, comment: string, issueKey: string, userName: string, timestamp: int)

  datatype Activity = Activity(id: nat, issueKey: string, action: string, details: string,
                               userName: string, timestamp: int)

  datatype Change = Change(id: nat, issueKey: string, field: string, oldValue: string, newValue: string,
                           reason: string, userName: string, timestamp: int)

  /** The three logs, each keyed by issue key (the stored keys carry the
      distinct prefixes `comments-`, `activity-` and `history-`). */
  datatype Logs = Logs(comments: map<string, seq<Comment>>,
                       activities: map<string, seq<Activity>>,
                       history: map<string, seq<Change>>)

  /** `s || fallback` for a string-valued payload field: the empty string is falsy. */
  function OrElse(s: string, fallback: string): (r: string)
    ensures s != "" ==> r == s
    ensures s == "" ==> r == fallback
  {
    if s == "" then fallback else s
  }

  /** `log.unshift(item)` followed by `slice(0, cap)` when the log grew past `cap`. */
  function PrependCapped<T>(log: seq<T>, item: T, cap: nat): (r: seq<T>)
    requires cap > 0
    ensures |r| == Min(|log| + 1, cap)
    ensures r[0] == item
    ensures r[1..] == log[..|r| - 1]
  {
    var grown := [item] + log;
    assert grown[1..] == log;
    Take(grown, cap)
  }

  /** A log stored under `key`, or the empty log (`storage.get(key) || []`). */
  function Stored<T>(m: map<string, seq<T>>, key: string): seq<T> {
    if key in m then m[key] else []
  }

  /** The log built by writing `items` one after another into an empty log. */
  function Replay<T>(items: seq<T>, cap: nat): seq<T>
    requires cap > 0
    decreases |items|
  {
    if |items| == 0 then [] else PrependCapped(Replay(items[..|items| - 1], cap), items[|items| - 1], cap)
  }

  function Reverse<T>(s: seq<T>): (r: seq<T>)
    ensures |r| == |s|
    ensures forall i :: 0 <= i < |s| ==> r[i] == s[|s| - 1 - i]
    decreases |s|
  {
    if |s| == 0 then [] else [s[|s| - 1]] + Reverse(s[..|s| - 1])
  }

  /** The log always holds the `cap` most recent writes, newest first. */
  lemma {:induction false} ReplayNewestFirst<T>(items: seq<T>, cap: nat)
    requires cap > 0
    ensures Replay(items, cap) == Take(Reverse(items), cap)
    decreases |items|
  {
    if |items| > 0 {
      var init := items[..|items| - 1];
      var x := items[|items| - 1];
      ReplayNewestFirst(init, cap);
      var prev := Take(Reverse(init), cap);
      var r := PrependCapped(prev, x, cap);
      var want := Take(Reverse(items), cap);
      assert Reverse(items) == [x] + Reverse(init);
      assert |r| == |want|;
      forall i | 0 <= i < |r| ensures r[i] == want[i] {
        if i > 0 {
          assert r[i] == r[1..][i - 1] == prev[i - 1];
        }
      }
    }
  }

  /** The `addComment` resolver: both the comment text and the issue key are required. */
  function AddComment(logs: Logs, comment: string, issueKey: string, userName: string, id: nat, now: int)
    : (r: Result<(Logs, Comment)>)
    ensures comment == "" || issueKey == "" <==> r.Err?
    ensures r.Err? ==> r.message == "Comment text and issue key are required"
    ensures r.Ok? ==>
      var (after, c) := r.value;
      && c.comment == Trim(comment) && c.issueKey == issueKey
      && c.userName == OrElse(userName, UnknownUser)
      && Stored(after.comments, issueKey) == PrependCapped(Stored(logs.comments, issueKey), c, CommentCapacity)
      && (forall k :: k != issueKey ==> Stored(after.comments, k) == Stored(logs.comments, k))
      && after.activities == logs.activities && after.history == logs.history
  {
    if comment == "" || issueKey == "" then Err("Comment text and issue key are required")
    else
      var c := Comment(id, Trim(comment), issueKey, OrElse(userName, UnknownUser), now);
      var log := PrependCapped(Stored(logs.comments, issueKey), c, CommentCapacity);
      Ok((logs.(comments := logs.comments[issueKey := log]), c))
  }

  /** The `logActivity` resolver: issue key and action are required; the
      details default to the action. */
  function LogActivity(logs: Logs, issueKey: string, action: string, details: string, userName: string,
                       id: nat, now: int): (r: Result<(Logs, Activity)>)
    ensures issueKey == "" || action == "" <==> r.Err?
    ensures r.Err? ==> r.message == "Issue key and action are required"
    ensures r.Ok? ==>
      var (after, a) := r.value;
      && a.action == action && a.details == OrElse(details, action)
      && a.userName == OrElse(userName, UnknownUser)
      && Stored(after.activities, issueKey) == PrependCapped(Stored(logs.activities, issueKey), a, ActivityCapacity)
      && (forall k :: k != issueKey ==> Stored(after.activities, k) == Stored(logs.activities, k))
      && after.comments == logs.comments && after.history == logs.history
  {
    if issueKey == "" || action == "" then Err("Issue key and action are required")
    else
      var a := Activity(id, issueKey, action, OrElse(details, action), OrElse(userName, UnknownUser), now);
      var log := PrependCapped(Stored(logs.activities, issueKey), a, ActivityCapacity);
      Ok((logs.(activities := logs.activities[issueKey := log]), a))
  }

  /** The `logChange` resolver: issue key and field are required; the reason
      defaults to "User modification". */
  function LogChange(logs: Logs, issueKey: string, field: string, oldValue: string, newValue: string,
                     reason: string, userName: string, id: nat, now: int): (r: Result<(Logs, Change)>)
    ensures issueKey == "" || field == "" <==> r.Err?
    ensures r.Err? ==> r.message == "Issue key and field are required"
    ensures r.Ok? ==>
      var (after, c) := r.value;
      && c.field == field && c.oldValue == oldValue && c.newValue == newValue
      && c.reason == OrElse(reason, "User modification")
      && c.userName == OrElse(userName, UnknownUser)
      && Stored(after.history, issueKey) == PrependCapped(Stored(logs.history, issueKey), c, HistoryCapacity)
      && (forall k :: k != issueKey ==> Stored(after.history, k) == Stored(logs.history, k))
      && after.comments == logs.comments && after.activities == logs.activities
  {
    if issueKey == "" || field == "" then Err("Issue key and field are required")
    else
      var c := Change(id, issueKey, field, oldValue, newValue, OrElse(reason, "User modification"),
                      OrElse(userName, UnknownUser), now);
      var log := PrependCapped(Stored(logs.history, issueKey), c, HistoryCapacity);
      Ok((logs.(history := logs.history[issueKey := log]), c))
  }

  /** After any number of comments on one issue, its log holds the newest
      100 of them, newest first. */
  lemma CommentsNewestFirst(comments: seq<Comment>)
    ensures |Replay(comments, CommentCapacity)| <= CommentCapacity
    ensures Replay(comments, CommentCapacity) == Take(Reverse(comments), CommentCapacity)
  {
    ReplayNewestFirst(comments, CommentCapacity);
  }
}

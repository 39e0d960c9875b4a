/** `NotificationManager.addNotification`: the stored notification record. */
module Notifications {
  import opened Basics
  import opened Json

  /** `addNotification(type, message, importance = 'normal')`: an unread
      record put at the front of the list (`unshift`). */
  function AddNotification(notifications: seq<Record>, kind: string, message: string,
                           importance: Option<string>, now: int, isoNow: string): (r: seq<Record>)
    ensures |r| == |notifications| + 1 && r[1..] == notifications
    ensures r[0].Keys == {"id", "type", "message", "importance", "timestamp", "read"}
    ensures r[0]["id"] == JNum(now) && r[0]["timestamp"] == JStr(isoNow)
    ensures r[0]["type"] == JStr(kind) && r[0]["message"] == JStr(message)
    ensures r[0]["read"] == JBool(false)
    ensures importance.None? ==> r[0]["importance"] == JStr("normal")
    ensures importance.Some? ==> r[0]["importance"] == JStr(importance.value)
  {
    var note := map["id" := JNum(now),
                    "type" := JStr(kind),
                    "message" := JStr(message),
                    "importance" := JStr(importance.GetOr("normal")),
                    "timestamp" := JStr(isoNow),
                    "read" := JBool(false)];
    [note] + notifications
  }
}

/**
 Splitting and joining of request paths and header values, and the two path rewritings: the outbound one
 puts the service id in front, the inbound one drops everything up to the first slash.
 */
module Paths {

  const SLASH := '/'
  const SPACE := ' '

  function Split(s: string, sep: char): (r: seq<string>)
    ensures |r| >= 1
  {
    if s == "" then [""]
    else
      var rest := Split(s[1..], sep);
      if s[0] == sep then [""] + rest else [[s[0]] + rest[0]] + rest[1..]
  }

  function Join(parts: seq<string>, sep: char): string {
    if parts == [] then ""
    else if |parts| == 1 then parts[0]
    else parts[0] + [sep] + Join(parts[1..], sep)
  }

  /** The text before the first separator, and the text after it. */
  function Before(s: string, sep: char): (r: string)
    ensures sep !in r
  {
    if s == "" || s[0] == sep then "" else [s[0]] + Before(s[1..], sep)
  }

  function After(s: string, sep: char): string {
    if s == "" then "" else if s[0] == sep then s[1..] else After(s[1..], sep)
  }

  lemma {:induction false} JoinOfSplit(s: string, sep: char)
    ensures Join(Split(s, sep), sep) == s
  {
    if s != "" {
      JoinOfSplit(s[1..], sep);
      var rest := Split(s[1..], sep);
      if s[0] == sep {
        assert ([""] + rest)[1..] == rest;
      } else if |rest| > 1 {
        assert Split(s, sep)[1..] == rest[1..];
      }
    }
  }

  lemma {:induction false} SplitOfNone(s: string, sep: char)
    requires sep !in s
    ensures Split(s, sep) == [s]
  {
    if s != "" {
      SplitOfNone(s[1..], sep);
      assert s == [s[0]] + s[1..];
    }
  }

  lemma {:induction false} SplitOfSome(head: string, tail: string, sep: char)
    requires sep !in head
    ensures Split(head + [sep] + tail, sep) == [head] + Split(tail, sep)
    decreases |head|
  {
    var s := head + [sep] + tail;
    if head == "" {
      assert s[1..] == tail;
    } else {
      assert s[1..] == head[1..] + [sep] + tail;
      SplitOfSome(head[1..], tail, sep);
      assert Split(s[1..], sep) == [head[1..]] + Split(tail, sep);
      assert head == [head[0]] + head[1..];
    }
  }

  /** Split undoes Join when no part contains the separator. */
  lemma {:induction false} SplitOfJoin(parts: seq<string>, sep: char)
    requires parts != [] && forall p :: p in parts ==> sep !in p
    ensures Split(Join(parts, sep), sep) == parts
    decreases |parts|
  {
    if |parts| == 1 {
      SplitOfNone(parts[0], sep);
    } else {
      SplitOfJoin(parts[1..], sep);
      SplitOfSome(parts[0], Join(parts[1..], sep), sep);
    }
  }

  lemma {:induction false} BeforeAndAfter(s: string, sep: char)
    requires sep in s
    ensures Before(s, sep) + [sep] + After(s, sep) == s
  {
    if s[0] != sep {
      BeforeAndAfter(s[1..], sep);
    }
  }

  lemma {:induction false} BeforeWhole(s: string, sep: char)
    requires sep !in s
    ensures Before(s, sep) == s && After(s, sep) == ""
  {
    if s != "" {
      BeforeWhole(s[1..], sep);
    }
  }

  /** The first field is the text before the first separator; there is a second field exactly when there is
      a separator, and it runs to the next one. */
  lemma SplitFields(s: string, sep: char)
    ensures Split(s, sep)[0] == Before(s, sep)
    ensures |Split(s, sep)| >= 2 <==> sep in s
    ensures sep in s ==> Split(s, sep)[1] == Before(After(s, sep), sep)
    decreases |s|
  {
    if sep in s {
      var head, tail := Before(s, sep), After(s, sep);
      BeforeAndAfter(s, sep);
      SplitOfSome(head, tail, sep);
      assert |tail| < |s|;
      SplitFields(tail, sep);
    } else {
      SplitOfNone(s, sep);
      BeforeWhole(s, sep);
    }
  }

  // ---- Path rewriting ------------------------------------------------------------------------------

  /** The inbound rewriting, as it is computed: all segments but the first. */
  function ApiPath(fullPath: string): string {
    Join(Split(fullPath, SLASH)[1..], SLASH)
  }

  /** The outbound rewriting. */
  function OutboundPath(serviceID: string, path: string): string {
    [SLASH] + serviceID + path
  }

  /** The inbound rewriting keeps the text after the first slash, or nothing when there is no slash. */
  lemma ApiPathIsAfterSlash(fullPath: string)
    ensures ApiPath(fullPath) == After(fullPath, SLASH)
  {
    if SLASH in fullPath {
      var head, tail := Before(fullPath, SLASH), After(fullPath, SLASH);
      BeforeAndAfter(fullPath, SLASH);
      SplitOfSome(head, tail, SLASH);
      assert Split(fullPath, SLASH)[1..] == Split(tail, SLASH);
      JoinOfSplit(tail, SLASH);
    } else {
      SplitOfNone(fullPath, SLASH);
      BeforeWhole(fullPath, SLASH);
    }
  }

  lemma {:induction false} AfterOfSome(head: string, tail: string, sep: char)
    requires sep !in head
    ensures Before(head + [sep] + tail, sep) == head && After(head + [sep] + tail, sep) == tail
    decreases |head|
  {
    var s := head + [sep] + tail;
    if head != "" {
      assert s[1..] == head[1..] + [sep] + tail;
      AfterOfSome(head[1..], tail, sep);
    } else {
      assert s[1..] == tail;
    }
  }

  /** Exactly which request paths reach an API registered under `path`. */
  lemma ReachesIff(fullPath: string, path: string)
    ensures ApiPath(fullPath) == path
       <==> ('/' !in fullPath && path == "")
            || (exists head :: '/' !in head && fullPath == head + "/" + path)
  {
    ApiPathIsAfterSlash(fullPath);
    if SLASH in fullPath {
      BeforeAndAfter(fullPath, SLASH);
      forall head | SLASH !in head && fullPath == head + "/" + path
        ensures After(fullPath, SLASH) == path
      {
        AfterOfSome(head, path, SLASH);
      }
    } else {
      BeforeWhole(fullPath, SLASH);
    }
  }

  /** A request sent out for a service arrives under the service id followed by its original path; and when
      the id has no slash and the path begins with one, both can be told apart again. */
  lemma OutboundThenInbound(serviceID: string, path: string)
    ensures OutboundPath(serviceID, path) == "/" + serviceID + path
    ensures ApiPath("/" + serviceID + path) == serviceID + path
    ensures '/' !in serviceID && path != "" && path[0] == '/' ==>
              Before(serviceID + path, '/') == serviceID && "/" + After(serviceID + path, '/') == path
  {
    var full := OutboundPath(serviceID, path);
    ApiPathIsAfterSlash(full);
    assert full[1..] == serviceID + path;
    if SLASH !in serviceID && path != "" && path[0] == SLASH {
      assert serviceID + path == serviceID + [SLASH] + path[1..];
      AfterOfSome(serviceID, path[1..], SLASH);
    }
  }
}

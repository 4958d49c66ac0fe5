/** Namespace strings: `namespace.split('/')` and the cumulative child keys
    ('/a', '/a/b', ...) that `suite()` builds from the segments. */
module Namespace {

  /** The segments of `s`, split at every '/', with the semantics of
      JavaScript's `String.prototype.split('/')`: there is always at least one
      segment, and empty segments are kept ("" gives [""], "a//b" gives
      ["a", "", "b"]). */
  function Split(s: string): (parts: seq<string>)
    ensures |parts| >= 1
    ensures forall i :: 0 <= i < |parts| ==> '/' !in parts[i]
    ensures |parts| == 1 + SlashCount(s)
  {
    if |s| == 0 then [""]
    else
      var rest := Split(s[1..]);
      if s[0] == '/' then [""] + rest
      else [[s[0]] + rest[0]] + rest[1..]
  }

  /** The number of '/' characters in `s`. */
  function SlashCount(s: string): nat
  {
    if |s| == 0 then 0 else (if s[0] == '/' then 1 else 0) + SlashCount(s[1..])
  }

  /** The inverse of `Split`: the segments glued back together with '/'. */
  function Join(parts: seq<string>): string
    requires |parts| >= 1
  {
    if |parts| == 1 then parts[0] else parts[0] + "/" + Join(parts[1..])
  }

  /** The key of the node reached through `parts`: every segment prefixed by
      '/', concatenated, as `key += '/' + description` accumulates it. */
  function Key(parts: seq<string>): string
  {
    if |parts| == 0 then "" else "/" + parts[0] + Key(parts[1..])
  }

  /** Splitting and joining again gives back the namespace string. */
  lemma {:induction false} JoinSplit(s: string)
    ensures Join(Split(s)) == s
  {
    if |s| > 0 {
      JoinSplit(s[1..]);
      var rest := Split(s[1..]);
      if s[0] == '/' {
        assert Split(s) == [""] + rest;
        assert ([""] + rest)[1..] == rest;
        assert s == [s[0]] + s[1..];
      } else {
        var parts := Split(s);
        assert parts[0] == [s[0]] + rest[0];
        if |rest| == 1 {
          assert s == [s[0]] + s[1..];
        } else {
          assert parts[1..] == rest[1..];
          assert Join(rest) == rest[0] + "/" + Join(rest[1..]);
          assert s == [s[0]] + s[1..];
        }
      }
    }
  }

  /** A segment with no '/' splits into itself. */
  lemma {:induction false} SplitSegment(p: string)
    requires '/' !in p
    ensures Split(p) == [p]
  {
    if |p| > 0 {
      assert '/' !in p[1..] by {
        forall k | 0 <= k < |p[1..]| ensures p[1..][k] != '/' {
          assert p[1..][k] == p[k + 1];
        }
      }
      SplitSegment(p[1..]);
      assert [p[0]] + p[1..] == p;
    }
  }

  /** Splitting a string that starts with a slash-free segment `p`. */
  lemma {:induction false} SplitPrepend(p: string, t: string)
    requires '/' !in p
    ensures Split(p + t) == [p + Split(t)[0]] + Split(t)[1..]
  {
    if |p| > 0 {
      assert '/' !in p[1..] by {
        forall k | 0 <= k < |p[1..]| ensures p[1..][k] != '/' {
          assert p[1..][k] == p[k + 1];
        }
      }
      SplitPrepend(p[1..], t);
      assert (p + t)[1..] == p[1..] + t;
      assert [p[0]] + (p[1..] + Split(t)[0]) == p + Split(t)[0];
    } else {
      var q := Split(t);
      assert p + t == t;
      assert p + q[0] == q[0];
      assert q == [q[0]] + q[1..];
    }
  }

  /** Joining slash-free segments and splitting again gives back the
      segments: `Split` and `Join` are inverse bijections. */
  lemma {:induction false} SplitJoin(parts: seq<string>)
    requires |parts| >= 1
    requires forall i :: 0 <= i < |parts| ==> '/' !in parts[i]
    ensures Split(Join(parts)) == parts
  {
    if |parts| == 1 {
      SplitSegment(parts[0]);
    } else {
      var tail := Join(parts[1..]);
      SplitJoin(parts[1..]);
      SplitPrepend(parts[0], "/" + tail);
      assert Split("/" + tail) == [""] + Split(tail) by {
        assert ("/" + tail)[1..] == tail;
      }
      assert parts[0] + "/" + tail == parts[0] + ("/" + tail);
      assert parts[0] + "" == parts[0];
      assert parts == [parts[0]] + parts[1..];
    }
  }

  /** The key of a path is '/' followed by the joined path. */
  lemma {:induction false} KeyIsSlashJoin(parts: seq<string>)
    requires |parts| >= 1
    ensures Key(parts) == "/" + Join(parts)
  {
    if |parts| > 1 {
      KeyIsSlashJoin(parts[1..]);
    }
  }

  /** The terminal key `suite()` builds for a namespace is '/' followed by
      the namespace string itself, so equal namespaces reach equal keys and
      different namespaces different keys. */
  lemma TerminalKey(ns: string)
    ensures Key(Split(ns)) == "/" + ns
  {
    KeyIsSlashJoin(Split(ns));
    JoinSplit(ns);
  }

  /** Extending a path by one segment extends its key by '/' and that
      segment: the step `key += '/' + description` of the source loop. */
  lemma {:induction false} KeyStep(parts: seq<string>, i: nat)
    requires i < |parts|
    ensures Key(parts[..i + 1]) == Key(parts[..i]) + "/" + parts[i]
  {
    if i > 0 {
      KeyStep(parts[1..], i - 1);
      assert parts[..i + 1][1..] == parts[1..][..i];
      assert parts[..i][1..] == parts[1..][..i - 1];
    } else {
      assert parts[..1][1..] == [];
    }
  }

  /** The key the walk builds for the last segment is '/' followed by the
      namespace string itself. */
  lemma LastKey(ns: string)
    ensures var parts := Split(ns);
      "" + Key(parts[..|parts| - 1]) + "/" + parts[|parts| - 1] == "/" + ns
  {
    var parts := Split(ns);
    var i := |parts| - 1;
    assert parts[..i + 1] == parts;
    KeyStep(parts, i);
    TerminalKey(ns);
    var front := Key(parts[..i]);
    assert front + "/" + parts[i] == "/" + ns;
    assert "" + front == front;
  }
}

/**
 * The downloadable recommendations file: the messages joined with line
 * breaks (`"\n".join(...)`), offered only when there is at least one.
 */
module Export {
  import opened Wrappers

  /** The lines joined with `'\n'` between each two. */
  function Join(lines: seq<string>): string {
    if lines == [] then ""
    else if |lines| == 1 then lines[0]
    else lines[0] + "\n" + Join(lines[1..])
  }

  /** Position of the first `c` in `s`. */
  function IndexOf(s: string, c: char): (i: nat)
    requires c in s
    ensures i < |s| && s[i] == c && c !in s[..i]
  {
    if s[0] == c then 0
    else
      assert c in s[1..] by { assert s == [s[0]] + s[1..]; }
      var j := IndexOf(s[1..], c);
      assert s[..j + 1] == [s[0]] + s[1..][..j];
      j + 1
  }

  /** The pieces of `s` between its line breaks (`s.split("\n")`). */
  function Split(s: string): (parts: seq<string>)
    ensures |parts| >= 1
    decreases |s|
  {
    if '\n' !in s then [s]
    else
      var i := IndexOf(s, '\n');
      [s[..i]] + Split(s[i + 1..])
  }

  predicate SingleLines(lines: seq<string>) {
    forall k :: 0 <= k < |lines| ==> '\n' !in lines[k]
  }

  /** Splitting undoes joining, for a non-empty list of single-line messages. */
  lemma {:induction false} SplitJoin(lines: seq<string>)
    requires |lines| > 0 && SingleLines(lines)
    ensures Split(Join(lines)) == lines
  {
    if |lines| > 1 {
      var head, tail := lines[0], Join(lines[1..]);
      var s := head + "\n" + tail;
      assert s[|head|] == '\n';
      var i := IndexOf(s, '\n');
      assert forall k :: 0 <= k < |head| ==> s[k] == head[k];
      assert '\n' !in lines[0];
      assert forall k :: 0 <= k < i ==> s[k] == s[..i][k] && s[..i][k] in s[..i];
      assert i == |head|;
      assert s[..i] == head;
      assert s[i + 1..] == tail;
      SplitJoin(lines[1..]);
    }
  }

  /** Number of line breaks in `s`. */
  function Breaks(s: string): nat {
    if s == [] then 0 else (if s[0] == '\n' then 1 else 0) + Breaks(s[1..])
  }

  lemma {:induction false} BreaksAppend(a: string, b: string)
    ensures Breaks(a + b) == Breaks(a) + Breaks(b)
  {
    if a != [] {
      assert (a + b)[1..] == a[1..] + b;
      BreaksAppend(a[1..], b);
    } else {
      assert a + b == b;
    }
  }

  lemma {:induction false} NoBreaks(s: string)
    requires '\n' !in s
    ensures Breaks(s) == 0
  {
    if s != [] {
      assert s == [s[0]] + s[1..];
      NoBreaks(s[1..]);
    }
  }

  /** Joined single-line messages have one line break fewer than messages. */
  lemma {:induction false} JoinBreaks(lines: seq<string>)
    requires |lines| > 0 && SingleLines(lines)
    ensures Breaks(Join(lines)) == |lines| - 1
  {
    NoBreaks(lines[0]);
    if |lines| > 1 {
      JoinBreaks(lines[1..]);
      BreaksAppend(lines[0] + "\n", Join(lines[1..]));
      BreaksAppend(lines[0], "\n");
    }
  }

  /**
   * The download of the dashboard: offered exactly when there is a
   * recommendation; its text has one line per message and splits back into
   * the messages.
   */
  function Download(recommendations: seq<string>): (payload: Option<string>)
    ensures payload.Some? <==> |recommendations| > 0
    ensures payload.Some? && SingleLines(recommendations) ==>
      && Split(payload.value) == recommendations
      && Breaks(payload.value) + 1 == |recommendations|
  {
    if recommendations == [] then None
    else
      var text := Join(recommendations);
      assert SingleLines(recommendations) ==>
        Split(text) == recommendations && Breaks(text) + 1 == |recommendations|
      by {
        if SingleLines(recommendations) {
          SplitJoin(recommendations);
          JoinBreaks(recommendations);
        }
      }
      Some(text)
  }
}

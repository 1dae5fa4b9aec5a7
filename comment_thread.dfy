/** The comment thread of one post: an ordered sequence of comment strings,
    newest first, together with the pure transformations the post's event
    handlers apply to it (src/components/Post.tsx). */
module CommentThread {

  /** `part` keeps elements of `whole` in their original relative order,
      possibly skipping some of them. */
  ghost predicate IsSubsequence<T>(part: seq<T>, whole: seq<T>)
    decreases |whole|
  {
    part == [] ||
    (whole != [] &&
     ((part[0] == whole[0] && IsSubsequence(part[1..], whole[1..])) ||
      IsSubsequence(part, whole[1..])))
  }

  /** No comment in the thread is the empty string. */
  predicate NoEmptyEntry(entries: seq<string>) {
    "" !in entries
  }

  /** The spread `[newCommentText, ...comments]`: the draft becomes the new
      head and every earlier comment keeps its place behind it. */
  function Prepend(text: string, entries: seq<string>): (r: seq<string>)
    ensures |r| == |entries| + 1
    ensures r[0] == text && r[1..] == entries
    ensures multiset(r) == multiset(entries) + multiset{text}
    ensures NoEmptyEntry(entries) && text != "" ==> NoEmptyEntry(r)
  {
    [text] + entries
  }

  /** `comments.filter((comment) => comment !== commentToDelete)`: every
      entry equal to `s` goes, every other entry stays, in order. */
  function Remove(entries: seq<string>, s: string): (r: seq<string>)
    ensures s !in r
    ensures forall x :: x in r <==> x in entries && x != s
    ensures multiset(r) == multiset(entries)[s := 0]
    ensures |r| == |entries| - multiset(entries)[s]
    ensures IsSubsequence(r, entries)
    decreases |entries|
  {
    if entries == [] then []
    else
      var rest := Remove(entries[1..], s);
      assert entries == [entries[0]] + entries[1..];
      if entries[0] == s then rest
      else
        var r := [entries[0]] + rest;
        assert r[1..] == rest;
        r
  }

  /** `newCommentText.length === 0`: the flag that disables the submit
      button. Only the length is tested, nothing is trimmed. */
  function IsNewCommentEmpty(draft: string): (empty: bool)
    ensures empty <==> draft == ""
  {
    |draft| == 0
  }

  /** Deleting a value that is absent leaves the thread as it was. */
  lemma {:induction false} RemoveAbsent(entries: seq<string>, s: string)
    requires s !in entries
    ensures Remove(entries, s) == entries
    decreases |entries|
  {
    if entries != [] {
      RemoveAbsent(entries[1..], s);
    }
  }

  /** Deleting the same value twice is the same as deleting it once. */
  lemma {:induction false} RemoveIdempotent(entries: seq<string>, s: string)
    ensures Remove(Remove(entries, s), s) == Remove(entries, s)
  {
    RemoveAbsent(Remove(entries, s), s);
  }

  /** Creating a comment whose text is new and then deleting it restores
      the thread. */
  lemma {:induction false} PrependThenRemove(text: string, entries: seq<string>)
    requires text !in entries
    ensures Remove(Prepend(text, entries), text) == entries
  {
    var p := Prepend(text, entries);
    assert p[1..] == entries;
    RemoveAbsent(entries, text);
  }

  /** A subsequence never holds more copies of a value than the whole. */
  lemma {:induction false} SubsequenceMultiset<T>(part: seq<T>, whole: seq<T>)
    requires IsSubsequence(part, whole)
    ensures multiset(part) <= multiset(whole)
    decreases |whole|
  {
    if part != [] {
      assert whole == [whole[0]] + whole[1..];
      if part[0] == whole[0] && IsSubsequence(part[1..], whole[1..]) {
        SubsequenceMultiset(part[1..], whole[1..]);
        assert part == [part[0]] + part[1..];
      } else {
        SubsequenceMultiset(part, whole[1..]);
      }
    }
  }

  /** Remove's contract pins its result down: the only subsequence of the
      thread that drops every copy of `s` and nothing else is Remove's. */
  lemma {:induction false} RemoveUnique(entries: seq<string>, s: string, r: seq<string>)
    requires IsSubsequence(r, entries)
    requires multiset(r) == multiset(entries)[s := 0]
    ensures r == Remove(entries, s)
    decreases |entries|
  {
    if entries == [] {
      assert r == [];
    } else {
      var x, rest := entries[0], entries[1..];
      assert entries == [x] + rest;
      if x == s {
        assert multiset(entries)[s := 0] == multiset(rest)[s := 0];
        if r != [] {
          assert r[0] in multiset(r);
        }
        assert IsSubsequence(r, rest);
        RemoveUnique(rest, s, r);
      } else {
        assert multiset(r)[x] == multiset(rest)[x] + 1;
        if IsSubsequence(r, rest) {
          SubsequenceMultiset(r, rest);
          assert false;
        }
        assert r == [x] + r[1..];
        assert multiset(r) == multiset{x} + multiset(r[1..]);
        assert multiset(entries) == multiset{x} + multiset(rest);
        forall y
          ensures multiset(r[1..])[y] == multiset(rest)[s := 0][y]
        {
          assert multiset(r)[y] == multiset{x}[y] + multiset(r[1..])[y];
          assert multiset(entries)[y] == multiset{x}[y] + multiset(rest)[y];
          if y == s {
            assert multiset(r)[y] == 0;
          } else {
            assert multiset(r)[y] == multiset(entries)[y];
          }
        }
        assert multiset(r[1..]) == multiset(rest)[s := 0];
        RemoveUnique(rest, s, r[1..]);
      }
    }
  }
}

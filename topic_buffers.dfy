/**
 * The contents of one chart panel: an ordered list of topic buffers, each of
 * which only names the topic it holds. This module gives the value-level
 * meaning of the panel's read-only scan (`has_topic`) and of its `retain`
 * step (`remove_topic`), and the facts about them that the panel and the
 * plot rely on.
 */
module TopicBuffers {

  /** A selected topic; two buffers are equal exactly when their identifiers are. */
  datatype TopicBuffer = TopicBuffer(identifier: string)

  /** The `iter().any(|b| b.identifier == name)` scan over a panel's buffers. */
  function Contains(buffers: seq<TopicBuffer>, name: string): (r: bool)
    ensures r <==> exists i :: 0 <= i < |buffers| && buffers[i].identifier == name
  {
    if buffers == [] then false
    else
      assert forall i :: 0 < i < |buffers| ==> buffers[i] == buffers[1..][i - 1];
      buffers[0].identifier == name || Contains(buffers[1..], name)
  }

  /**
   * The `retain(|b| b.identifier != name)` step: drops every buffer that names
   * `name` and keeps the others in their original order.
   */
  function Retain(buffers: seq<TopicBuffer>, name: string): (r: seq<TopicBuffer>)
    ensures forall b :: multiset(r)[b] == if b.identifier == name then 0 else multiset(buffers)[b]
  {
    if buffers == [] then []
    else
      assert buffers == [buffers[0]] + buffers[1..];
      if buffers[0].identifier == name then Retain(buffers[1..], name)
      else [buffers[0]] + Retain(buffers[1..], name)
  }

  /** No identifier occurs twice in the panel. */
  predicate Distinct(buffers: seq<TopicBuffer>)
  {
    forall j, k :: 0 <= j < k < |buffers| ==> buffers[j].identifier != buffers[k].identifier
  }

  /** After retaining, `name` is gone and every other topic is present exactly when it was before. */
  lemma RetainMembership(buffers: seq<TopicBuffer>, name: string, other: string)
    ensures !Contains(Retain(buffers, name), name)
    ensures other != name ==> (Contains(Retain(buffers, name), other) <==> Contains(buffers, other))
  {
  }

  /** Retaining distributes over concatenation: the relative order of the kept buffers is preserved. */
  lemma {:induction false} RetainAppend(a: seq<TopicBuffer>, b: seq<TopicBuffer>, name: string)
    ensures Retain(a + b, name) == Retain(a, name) + Retain(b, name)
  {
    if a == [] {
      assert a + b == b;
    } else {
      assert (a + b)[1..] == a[1..] + b;
      RetainAppend(a[1..], b, name);
    }
  }

  /** Retaining a name that is not there changes nothing. */
  lemma {:induction false} RetainAbsent(buffers: seq<TopicBuffer>, name: string)
    requires !Contains(buffers, name)
    ensures Retain(buffers, name) == buffers
  {
    if buffers != [] {
      RetainAbsent(buffers[1..], name);
    }
  }

  /** Removing a topic twice is the same as removing it once. */
  lemma {:induction false} RetainIdempotent(buffers: seq<TopicBuffer>, name: string)
    ensures Retain(Retain(buffers, name), name) == Retain(buffers, name)
  {
    RetainMembership(buffers, name, name);
    RetainAbsent(Retain(buffers, name), name);
  }

  /** A panel with a head buffer is duplicate-free iff its tail is and does not name the head's topic. */
  lemma DistinctCons(head: TopicBuffer, rest: seq<TopicBuffer>)
    ensures Distinct([head] + rest) <==> !Contains(rest, head.identifier) && Distinct(rest)
  {
    var s := [head] + rest;
    assert s[0] == head;
    if Distinct(s) {
      forall j, k | 0 <= j < k < |rest| ensures rest[j].identifier != rest[k].identifier {
        assert rest[j] == s[j + 1] && rest[k] == s[k + 1];
      }
      forall i | 0 <= i < |rest| ensures rest[i].identifier != head.identifier {
        assert rest[i] == s[i + 1];
      }
    }
    if !Contains(rest, head.identifier) && Distinct(rest) {
      forall j, k | 0 <= j < k < |s| ensures s[j].identifier != s[k].identifier {
        assert s[k] == rest[k - 1];
        if j == 0 {
          assert s[j] == head;
        } else {
          assert s[j] == rest[j - 1];
        }
      }
    }
  }

  /** Retaining keeps a panel free of duplicate identifiers. */
  lemma {:induction false} RetainKeepsDistinct(buffers: seq<TopicBuffer>, name: string)
    requires Distinct(buffers)
    ensures Distinct(Retain(buffers, name))
  {
    if buffers != [] {
      var head, rest := buffers[0], buffers[1..];
      assert buffers == [head] + rest;
      DistinctCons(head, rest);
      RetainKeepsDistinct(rest, name);
      if head.identifier != name {
        RetainMembership(rest, name, head.identifier);
        DistinctCons(head, Retain(rest, name));
      }
    }
  }

  /** What `push` of a new buffer does to membership: the new name is present, others as before. */
  lemma AppendMembership(buffers: seq<TopicBuffer>, name: string, other: string)
    ensures Contains(buffers + [TopicBuffer(name)], name)
    ensures other != name ==> (Contains(buffers + [TopicBuffer(name)], other) <==> Contains(buffers, other))
  {
    var s := buffers + [TopicBuffer(name)];
    assert s[|buffers|].identifier == name;
    if other != name {
      if i :| 0 <= i < |s| && s[i].identifier == other {
        assert i < |buffers| && buffers[i] == s[i];
      }
      if i :| 0 <= i < |buffers| && buffers[i].identifier == other {
        assert s[i] == buffers[i];
      }
    }
  }

  /** Pushing a name that is absent keeps a panel free of duplicate identifiers. */
  lemma AppendKeepsDistinct(buffers: seq<TopicBuffer>, name: string)
    requires Distinct(buffers) && !Contains(buffers, name)
    ensures Distinct(buffers + [TopicBuffer(name)])
  {
  }
}

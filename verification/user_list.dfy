/** The polling thread of the UDP client (`praktikum/UserListThread`): the
    body of `run` that turns a `USERS k1 v1 k2 v2 ...` reply into entries of
    the thread's own map and then makes the client's map equal to it. */
module UserList {
  import opened Prelude

  const UsersPrefix := "USERS"

  /** `substring(6)`: the prefix and the one separator after it. */
  const PayloadOffset := 6

  // ---------------------------------------------------------------------
  // String.split(" ")

  /** Every field between single spaces, empty ones included: one more
      field than there are spaces. */
  function Fields(s: string): (r: seq<string>)
    ensures |r| >= 1
    ensures forall f :: f in r ==> ' ' !in f
  {
    if |s| == 0 then [""]
    else if s[0] == ' ' then [""] + Fields(s[1..])
    else
      var rest := Fields(s[1..]);
      [[s[0]] + rest[0]] + rest[1..]
  }

  /** The fields joined back with single spaces. */
  function JoinFields(fs: seq<string>): string
    requires |fs| >= 1
  {
    if |fs| == 1 then fs[0] else fs[0] + " " + JoinFields(fs[1..])
  }

  /** Splitting loses nothing: joining the fields gives the string back. */
  lemma {:induction false} JoinFieldsInvertsFields(s: string)
    ensures JoinFields(Fields(s)) == s
  {
    if |s| > 0 {
      JoinFieldsInvertsFields(s[1..]);
      var rest := Fields(s[1..]);
      if s[0] == ' ' {
        assert ([""] + rest)[1..] == rest;
        assert s == [' '] + s[1..];
      } else {
        var fs := [[s[0]] + rest[0]] + rest[1..];
        if |rest| == 1 {
          assert s == [s[0]] + s[1..];
        } else {
          assert fs[1..] == rest[1..];
          assert JoinFields(rest) == rest[0] + " " + JoinFields(rest[1..]);
          assert s == [s[0]] + s[1..];
        }
      }
    }
  }

  function DropTrailingEmpty(fs: seq<string>): (r: seq<string>)
    ensures |r| <= |fs| && r == fs[..|r|]
    ensures |r| > 0 ==> r[|r| - 1] != ""
    ensures forall j :: |r| <= j < |fs| ==> fs[j] == ""
  {
    if |fs| == 0 then []
    else if fs[|fs| - 1] == "" then DropTrailingEmpty(fs[..|fs| - 1])
    else fs
  }

  /** Java's `s.split(" ")`: a string without a space splits into itself;
      otherwise the fields, with trailing empty fields removed. */
  function JavaSplit(s: string): (r: seq<string>)
    ensures forall f :: f in r ==> ' ' !in f
    ensures ' ' !in s ==> r == [s]
    ensures ' ' in s ==>
      var fs := Fields(s);
      && |r| <= |fs| && r == fs[..|r|]
      && (|r| > 0 ==> r[|r| - 1] != "")
      && (forall j :: |r| <= j < |fs| ==> fs[j] == "")
  {
    if ' ' !in s then [s] else DropTrailingEmpty(Fields(s))
  }

  // ---------------------------------------------------------------------
  // Pairwise insertion

  /** The map after `put(t[0], t[1])`, `put(t[2], t[3])`, ... over every
      complete pair. */
  function PutPairs(acc: map<string, string>, t: seq<string>): map<string, string>
    decreases |t|
  {
    if |t| < 2 then acc else PutPairs(acc[t[0] := t[1]], t[2..])
  }

  /** One more pair at the end is one more `put`. */
  lemma {:induction false} PutPairsSnoc(acc: map<string, string>, t: seq<string>, k: string, v: string)
    requires |t| % 2 == 0
    ensures PutPairs(acc, t + [k, v]) == PutPairs(acc, t)[k := v]
    decreases |t|
  {
    if |t| == 0 {
      assert ([] + [k, v])[2..] == [];
    } else {
      assert (t + [k, v])[2..] == t[2..] + [k, v];
      PutPairsSnoc(acc[t[0] := t[1]], t[2..], k, v);
    }
  }

  /** A trailing unpaired token is ignored. */
  lemma {:induction false} PutPairsIgnoresTrailingToken(acc: map<string, string>, t: seq<string>, x: string)
    requires |t| % 2 == 0
    ensures PutPairs(acc, t + [x]) == PutPairs(acc, t)
    decreases |t|
  {
    if |t| > 0 {
      assert (t + [x])[2..] == t[2..] + [x];
      PutPairsIgnoresTrailingToken(acc[t[0] := t[1]], t[2..], x);
    }
  }

  /** A key keeps its old entry unless some complete pair names it. */
  lemma {:induction false} PutPairsKeepsUntouched(acc: map<string, string>, t: seq<string>, k: string)
    requires forall j :: 0 <= j && 2 * j + 1 < |t| ==> t[2 * j] != k
    ensures k in PutPairs(acc, t) <==> k in acc
    ensures k in acc ==> PutPairs(acc, t)[k] == acc[k]
    decreases |t|
  {
    if |t| >= 2 {
      assert t[2 * 0] != k;
      var t' := t[2..];
      forall j | 0 <= j && 2 * j + 1 < |t'|
        ensures t'[2 * j] != k
      {
        assert t'[2 * j] == t[2 * (j + 1)];
      }
      PutPairsKeepsUntouched(acc[t[0] := t[1]], t', k);
    }
  }

  /** The value of a pair's key is that pair's value when no later pair
      names the same key: later pairs overwrite earlier ones. */
  lemma {:induction false} PutPairsLastWins(acc: map<string, string>, t: seq<string>, i: nat)
    requires 2 * i + 1 < |t|
    requires forall j :: i < j && 2 * j + 1 < |t| ==> t[2 * j] != t[2 * i]
    ensures t[2 * i] in PutPairs(acc, t) && PutPairs(acc, t)[t[2 * i]] == t[2 * i + 1]
    decreases |t|
  {
    var t' := t[2..];
    if i == 0 {
      forall j | 0 <= j && 2 * j + 1 < |t'|
        ensures t'[2 * j] != t[0]
      {
        assert t'[2 * j] == t[2 * (j + 1)];
      }
      PutPairsKeepsUntouched(acc[t[0] := t[1]], t', t[0]);
    } else {
      assert t'[2 * (i - 1)] == t[2 * i] && t'[2 * (i - 1) + 1] == t[2 * i + 1];
      forall j | i - 1 < j && 2 * j + 1 < |t'|
        ensures t'[2 * j] != t'[2 * (i - 1)]
      {
        assert t'[2 * j] == t[2 * (j + 1)];
      }
      PutPairsLastWins(acc[t[0] := t[1]], t', i - 1);
    }
  }

  /** The `for (i = 1; i < n; i += 2) put(a[i - 1], a[i])` loop. */
  method PutAll(acc: map<string, string>, a: seq<string>) returns (m: map<string, string>)
    ensures m == PutPairs(acc, a)
  {
    m := acc;
    var i := 1;
    while i < |a|
      invariant 1 <= i <= |a| + 1 && i % 2 == 1
      invariant m == PutPairs(acc, a[..i - 1])
    {
      PutPairsSnoc(acc, a[..i - 1], a[i - 1], a[i]);
      assert a[..i - 1] + [a[i - 1], a[i]] == a[..i + 1];
      m := m[a[i - 1] := a[i]];
      i := i + 2;
    }
    if i - 1 < |a| {
      assert a[..i - 1] + [a[i - 1]] == a;
      PutPairsIgnoresTrailingToken(acc, a[..i - 1], a[i - 1]);
    } else {
      assert a[..i - 1] == a;
    }
  }

  // ---------------------------------------------------------------------
  // One poll

  /** The outcome of one reply: the thread dies with an exception (null
      reply, or a reply of exactly `USERS`), nothing changes, or both maps
      are updated. */
  datatype PollResult = Crashed | Ignored | Updated(own: map<string, string>, client: map<string, string>)

  /** Handles one reply to the `USERS` request, with `own` the thread's
      accumulated map. None is a failed read (`input` stays null). */
  method Poll(own: map<string, string>, reply: Option<string>) returns (r: PollResult)
    ensures reply.None? ==> r.Crashed?
    ensures reply.Some? && !StartsWith(reply.value, UsersPrefix) ==> r.Ignored?
    ensures reply.Some? && StartsWith(reply.value, UsersPrefix) && |reply.value| < PayloadOffset ==> r.Crashed?
    ensures reply.Some? && StartsWith(reply.value, UsersPrefix) && PayloadOffset <= |reply.value| <= PayloadOffset + 1 ==> r.Ignored?
    ensures r.Updated? <==> reply.Some? && StartsWith(reply.value, UsersPrefix) && |reply.value| > PayloadOffset + 1
    ensures r.Updated? ==>
      && r.own == PutPairs(own, JavaSplit(reply.value[PayloadOffset..]))
      && r.client == r.own
  {
    if reply.None? {
      return Crashed;
    }
    var input := reply.value;
    if !StartsWith(input, UsersPrefix) {
      return Ignored;
    }
    match Substring(input, PayloadOffset)
    case None =>
      return Crashed;
    case Some(payload) =>
      if |payload| > 1 {
        var tokens := JavaSplit(payload);
        var own' := PutAll(own, tokens);
        return Updated(own', own');
      }
      return Ignored;
  }

  /** The thread's map is never cleared: an update keeps every earlier key,
      so entries accumulate across polls. */
  lemma {:induction false} PutPairsAccumulates(acc: map<string, string>, t: seq<string>)
    ensures acc.Keys <= PutPairs(acc, t).Keys
    decreases |t|
  {
    if |t| >= 2 {
      PutPairsAccumulates(acc[t[0] := t[1]], t[2..]);
    }
  }
}

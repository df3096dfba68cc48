/**
 * The text format that reference, collection, array and map fields are
 * stored in: a bracketed, comma-separated list of identity strings
 * (`"[id]"`, `"[id1,id2]"`, `"[[k1],[v1],[k2],[v2]]"`), and the way that
 * text is taken apart again.
 *
 * Taking it apart goes through DataNucleus core's
 * `MetaDataUtils.getValuesForCommaSeparatedAttribute`, which is not part of
 * this repository: an empty string gives `null`; otherwise the string is cut
 * by a `StringTokenizer` on `,` (which never yields an empty token) and each
 * token is trimmed as `String.trim` does.  `Components` is that behaviour.
 */
module RefText {
  import opened Outcomes

  /** Characters `String.trim` removes: code points up to U+0020. */
  predicate Trimmable(c: char) { c <= ' ' }

  function TrimStart(s: string): (r: string)
    ensures |r| <= |s|
    ensures |r| > 0 ==> !Trimmable(r[0])
    decreases |s|
  {
    if |s| > 0 && Trimmable(s[0]) then TrimStart(s[1..]) else s
  }

  function TrimEnd(s: string): (r: string)
    ensures |r| <= |s|
    ensures |r| > 0 ==> !Trimmable(r[|r| - 1])
    ensures r == s[..|r|]
    decreases |s|
  {
    if |s| > 0 && Trimmable(s[|s| - 1]) then TrimEnd(s[..|s| - 1]) else s
  }

  /** `String.trim`. */
  function Trim(s: string): string
  {
    TrimEnd(TrimStart(s))
  }

  /** A string `trim` leaves alone, as an identity token written by the store side is. */
  lemma TrimUntrimmable(s: string)
    requires |s| > 0 && !Trimmable(s[0]) && !Trimmable(s[|s| - 1])
    ensures Trim(s) == s
  {
  }

  /** `"[" + s + "]"`. */
  function Bracket(s: string): (r: string)
    ensures |r| == |s| + 2 && r[0] == '[' && r[|r| - 1] == ']'
  {
    "[" + s + "]"
  }

  /** `s.startsWith("[") && s.endsWith("]")`. */
  predicate IsBracketed(s: string)
  {
    |s| > 0 && s[0] == '[' && s[|s| - 1] == ']'
  }

  /** `s.substring(1, s.length() - 1)` on a bracketed string. */
  function Unbracket(s: string): (r: string)
    requires IsBracketed(s)
    ensures |r| == |s| - 2
  {
    s[1..|s| - 1]
  }

  lemma UnbracketBracket(s: string)
    ensures IsBracketed(Bracket(s)) && Unbracket(Bracket(s)) == s
  {
  }

  /**
   * The identity strings joined with `,` between consecutive ones, as the
   * `StringBuilder` loops of the store side produce them.
   */
  function Join(parts: seq<string>): string
  {
    if |parts| == 0 then ""
    else if |parts| == 1 then parts[0]
    else Join(parts[..|parts| - 1]) + "," + parts[|parts| - 1]
  }

  /** Appending one part: what one more pass of a `StringBuilder` loop adds. */
  lemma JoinSnoc(parts: seq<string>, x: string)
    ensures Join(parts + [x]) == if |parts| == 0 then x else Join(parts) + "," + x
  {
    assert (parts + [x])[..|parts|] == parts;
  }

  /** The index of the last `,` in `s`, or -1. */
  function LastComma(s: string): (r: int)
    ensures -1 <= r < |s|
    ensures r >= 0 ==> s[r] == ','
    ensures forall j :: r < j < |s| ==> s[j] != ','
  {
    if |s| == 0 then -1
    else if s[|s| - 1] == ',' then |s| - 1
    else LastComma(s[..|s| - 1])
  }

  /** `s` cut at every `,`, empty pieces included. */
  function Pieces(s: string): (r: seq<string>)
    ensures |r| > 0
    decreases |s|
  {
    var i := LastComma(s);
    if i < 0 then [s] else Pieces(s[..i]) + [s[i + 1..]]
  }

  /** The non-empty pieces: what a `StringTokenizer` on `,` returns. */
  function NonEmpty(ps: seq<string>): seq<string>
  {
    if |ps| == 0 then []
    else NonEmpty(ps[..|ps| - 1]) + (if ps[|ps| - 1] == "" then [] else [ps[|ps| - 1]])
  }

  function TrimAll(ts: seq<string>): (r: seq<string>)
    ensures |r| == |ts|
    ensures forall i :: 0 <= i < |ts| ==> r[i] == Trim(ts[i])
  {
    if |ts| == 0 then [] else TrimAll(ts[..|ts| - 1]) + [Trim(ts[|ts| - 1])]
  }

  /** `MetaDataUtils.getValuesForCommaSeparatedAttribute`: `None` is the `null` an empty string gives. */
  function Components(s: string): Option<seq<string>>
  {
    if |s| == 0 then None else Some(TrimAll(NonEmpty(Pieces(s))))
  }

  /**
   * An identity token that survives the round trip: non-empty, free of `,`,
   * and neither starting nor ending with a character `trim` removes.
   */
  predicate IsToken(t: string)
  {
    |t| > 0 && ',' !in t && !Trimmable(t[0]) && !Trimmable(t[|t| - 1])
  }

  predicate AllTokens(ts: seq<string>)
  {
    forall i :: 0 <= i < |ts| ==> IsToken(ts[i])
  }

  lemma {:induction false} JoinEmpty(parts: seq<string>)
    requires AllTokens(parts)
    ensures Join(parts) == "" <==> |parts| == 0
  {
    if |parts| >= 2 {
      assert |Join(parts)| > 0;
    }
  }

  /** Cutting the joined text at its commas gives back the comma-free parts. */
  lemma {:induction false} PiecesOfJoin(parts: seq<string>)
    requires |parts| > 0
    requires forall i :: 0 <= i < |parts| ==> ',' !in parts[i]
    ensures Pieces(Join(parts)) == parts
  {
    var n := |parts|;
    if n == 1 {
      assert LastComma(parts[0]) == -1;
    } else {
      var init, last := parts[..n - 1], parts[n - 1];
      assert Join(parts) == Join(init) + "," + last;
      assert ',' !in last;
      CutAtLastComma(Join(init), last);
      PiecesOfJoin(init);
      assert init + [last] == parts;
    }
  }

  /** A text ending in a comma-free part: its last comma is the one before that part. */
  lemma CutAtLastComma(front: string, last: string)
    requires ',' !in last
    ensures Pieces(front + "," + last) == Pieces(front) + [last]
  {
    var s := front + "," + last;
    var k := |front|;
    assert s[k] == ',';
    assert forall j :: k < j < |s| ==> s[j] == last[j - k - 1];
    assert LastComma(s) == k;
    assert s[..k] == front;
    assert s[k + 1..] == last;
  }

  lemma {:induction false} NonEmptyOfTokens(ts: seq<string>)
    requires AllTokens(ts)
    ensures NonEmpty(ts) == ts
  {
    if |ts| > 0 {
      NonEmptyOfTokens(ts[..|ts| - 1]);
      assert ts[..|ts| - 1] + [ts[|ts| - 1]] == ts;
    }
  }

  lemma TrimAllOfTokens(ts: seq<string>)
    requires AllTokens(ts)
    ensures TrimAll(ts) == ts
  {
    forall i | 0 <= i < |ts|
      ensures Trim(ts[i]) == ts[i]
    {
      TrimUntrimmable(ts[i]);
    }
  }

  /**
   * The round trip of the list format: the components of the joined tokens
   * are the tokens themselves, and an empty list gives `null`.
   */
  lemma ComponentsOfJoin(ts: seq<string>)
    requires AllTokens(ts)
    ensures Components(Join(ts)) == if |ts| == 0 then None else Some(ts)
  {
    JoinEmpty(ts);
    if |ts| > 0 {
      PiecesOfJoin(ts);
      NonEmptyOfTokens(ts);
      TrimAllOfTokens(ts);
    }
  }

  /** `[k1],[v1],[k2],[v2],...`: the components of a map's stored text. */
  function EntryParts(entries: seq<(string, string)>): (r: seq<string>)
    ensures |r| == 2 * |entries|
    ensures forall i :: 0 <= i < |entries| ==> r[2 * i] == Bracket(entries[i].0) && r[2 * i + 1] == Bracket(entries[i].1)
  {
    if |entries| == 0 then []
    else
      var init := entries[..|entries| - 1];
      var e := entries[|entries| - 1];
      var r := EntryParts(init) + [Bracket(e.0), Bracket(e.1)];
      assert forall i :: 0 <= i < |init| ==> init[i] == entries[i];
      r
  }

  /** One more entry adds `,[k],[v]` to the joined parts, as one more pass of the map loop does. */
  lemma EntryPartsSnoc(entries: seq<(string, string)>, k: string, v: string)
    ensures Join(EntryParts(entries + [(k, v)])) ==
            (if |entries| == 0 then "" else Join(EntryParts(entries)) + ",") + (Bracket(k) + "," + Bracket(v))
  {
    EntryPartsUnfold(entries, k, v);
    JoinPair(EntryParts(entries), Bracket(k), Bracket(v));
  }

  /** Appending two parts adds `,a,b`, or gives `a,b` alone. */
  lemma JoinPair(parts: seq<string>, a: string, b: string)
    ensures Join(parts + [a, b]) == (if |parts| == 0 then "" else Join(parts) + ",") + (a + "," + b)
  {
    assert parts + [a, b] == (parts + [a]) + [b];
    JoinSnoc(parts + [a], b);
    JoinSnoc(parts, a);
    if |parts| > 0 {
      CommaAssoc(Join(parts), a, b);
    }
  }

  lemma EntryPartsUnfold(entries: seq<(string, string)>, k: string, v: string)
    ensures EntryParts(entries + [(k, v)]) == EntryParts(entries) + [Bracket(k), Bracket(v)]
  {
    var all := entries + [(k, v)];
    assert all[..|all| - 1] == entries;
  }

  lemma CommaAssoc(a: string, b: string, c: string)
    ensures (a + "," + b) + "," + c == (a + ",") + (b + "," + c)
  {
  }

  lemma BracketToken(x: string)
    requires ',' !in x
    ensures IsToken(Bracket(x))
  {
    var b := Bracket(x);
    forall j | 0 <= j < |b|
      ensures b[j] != ','
    {
      if 0 < j < |b| - 1 { assert b[j] == x[j - 1]; }
    }
  }

  lemma {:induction false} BracketedTokens(entries: seq<(string, string)>)
    requires forall i :: 0 <= i < |entries| ==> ',' !in entries[i].0 && ',' !in entries[i].1
    ensures AllTokens(EntryParts(entries))
  {
    if |entries| > 0 {
      var init := entries[..|entries| - 1];
      var e := entries[|entries| - 1];
      BracketedTokens(init);
      BracketToken(e.0);
      BracketToken(e.1);
      assert EntryParts(entries) == EntryParts(init) + [Bracket(e.0), Bracket(e.1)];
    }
  }
}

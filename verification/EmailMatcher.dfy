/** parseEmail of P3: a hand-written search for "emailAddress=" that restarts after a
    mismatch without looking at the mismatched byte again. */
module EmailMatcher {
  import opened CText
  import opened Tokens

  const KEY: string := "emailAddress="

  /** The `k` bytes at `q` are the first `k` of the key. */
  predicate PrefixAt(key: string, s: string, q: nat, k: nat) {
    k <= |key| && q + k <= |s| && forall i :: 0 <= i < k ==> s[q + i] == key[i]
  }

  predicate OccursAt(key: string, s: string, p: nat) { PrefixAt(key, s, p, |key|) }

  lemma OccurrenceText(key: string, s: string, p: nat)
    requires p + |key| <= |s|
    ensures OccursAt(key, s, p) <==> s[p..p + |key|] == key
  {
    var t := s[p..p + |key|];
    assert forall i :: 0 <= i < |key| ==> t[i] == s[p + i];
  }

  predicate FirstOccurrence(key: string, s: string, p: nat) {
    OccursAt(key, s, p) && forall q :: 0 <= q < p ==> !OccursAt(key, s, q)
  }

  /** How many bytes of the key match at `q`, the first `k` being known to. */
  function Matched(key: string, s: string, q: nat, k: nat): (m: nat)
    requires k <= |key|
    ensures k <= m <= |key| && (q + k <= |s| ==> q + m <= |s|)
    decreases |key| - k
  {
    if k == |key| || q + k >= |s| || s[q + k] != key[k] then k else Matched(key, s, q, k + 1)
  }

  /** Where the matcher finds the key when it starts afresh at `q`: a failed attempt costs
      the bytes that matched and the one that did not. */
  function Scan(key: string, s: string, q: nat): Option<nat>
    decreases |s| - q
  {
    if q >= |s| then None
    else
      var k := Matched(key, s, q, 0);
      if k == |key| then Some(q) else Scan(key, s, q + k + 1)
  }

  lemma {:induction false} MatchedBytes(key: string, s: string, q: nat, k: nat)
    requires PrefixAt(key, s, q, k)
    ensures PrefixAt(key, s, q, Matched(key, s, q, k))
    ensures Matched(key, s, q, k) == |key| <==> OccursAt(key, s, q)
    decreases |key| - k
  {
    if k < |key| && q + k < |s| && s[q + k] == key[k] {
      MatchedBytes(key, s, q, k + 1);
    }
  }

  /** Sound: what is found is an occurrence, the key's very text. */
  lemma {:induction false} ScanIsSound(key: string, s: string, q: nat)
    ensures match Scan(key, s, q)
            case None => true
            case Some(p) => p >= q && OccursAt(key, s, p) && s[p..p + |key|] == key
    decreases |s| - q
  {
    if q < |s| {
      MatchedBytes(key, s, q, 0);
      if q + |key| <= |s| {
        OccurrenceText(key, s, q);
      }
      ScanIsSound(key, s, q + Matched(key, s, q, 0) + 1);
    }
  }

  /** The last place at or before `p` where the matcher starts afresh. */
  function Anchor(key: string, s: string, q: nat, p: nat): (a: nat)
    requires q <= p
    ensures q <= a <= p
    decreases p - q
  {
    var next := q + Matched(key, s, q, 0) + 1;
    if next > p then q else Anchor(key, s, next, p)
  }

  lemma {:induction false} AnchorBytes(key: string, s: string, q: nat, p: nat)
    requires q <= p <= |s|
    ensures var a := Anchor(key, s, q, p); p - a <= Matched(key, s, a, 0) && PrefixAt(key, s, a, p - a)
    decreases p - q
  {
    var next := q + Matched(key, s, q, 0) + 1;
    if next <= p {
      AnchorBytes(key, s, next, p);
    } else {
      MatchedBytes(key, s, q, 0);
    }
  }

  // ----- the exact condition, on the text alone -----

  /** The `k` bytes before `p` are the first `k` of the key, but not all of it. */
  predicate PartialMatchBefore(key: string, s: string, p: nat, k: nat) {
    1 <= k < |key| && k <= p && PrefixAt(key, s, p - k, k)
  }

  /** A partial match runs right up to `p`, and no other one hides the place where it began. */
  ghost predicate Hidden(key: string, s: string, p: nat)
    decreases p
  {
    exists k :: PartialMatchBefore(key, s, p, k) && !Hidden(key, s, p - k)
  }

  /** Every occurrence before `p` is hidden. */
  ghost predicate HiddenBefore(key: string, s: string, p: nat) {
    forall q: nat :: q < p && OccursAt(key, s, q) ==> Hidden(key, s, q)
  }

  ghost predicate InTheOpen(key: string, s: string, p: nat) { OccursAt(key, s, p) && !Hidden(key, s, p) }

  ghost predicate FirstInTheOpen(key: string, s: string, p: nat) {
    InTheOpen(key, s, p) && HiddenBefore(key, s, p)
  }

  lemma {:induction false} MatchedIsLongest(key: string, s: string, q: nat, j: nat, k: nat)
    requires j <= k && PrefixAt(key, s, q, k)
    ensures Matched(key, s, q, j) >= k
    decreases k - j
  {
    if j < k {
      MatchedIsLongest(key, s, q, j + 1, k);
    }
  }

  lemma {:induction false} AnchorIsAnchored(key: string, s: string, q: nat, p: nat)
    requires q <= p
    ensures Anchor(key, s, q, Anchor(key, s, q, p)) == Anchor(key, s, q, p)
    decreases p - q
  {
    var next := q + Matched(key, s, q, 0) + 1;
    if next <= p {
      AnchorIsAnchored(key, s, next, p);
    }
  }

  lemma {:induction false} AnchorPassesThrough(key: string, s: string, q: nat, b: nat, p: nat)
    requires q <= b <= p && Anchor(key, s, q, b) == b
    ensures Anchor(key, s, q, p) == Anchor(key, s, b, p)
    decreases b - q
  {
    var next := q + Matched(key, s, q, 0) + 1;
    if next <= b {
      AnchorPassesThrough(key, s, next, b, p);
    }
  }

  /** As long as all occurrences were hidden, the matcher starts afresh exactly at the places
      not hidden. */
  lemma {:induction false} AnchoredIffNotHidden(key: string, s: string, p: nat)
    requires p <= |s| && HiddenBefore(key, s, p)
    ensures Anchor(key, s, 0, p) == p <==> !Hidden(key, s, p)
    decreases p
  {
    var a := Anchor(key, s, 0, p);
    if a < p {
      AnchorIsAnchored(key, s, 0, p);
      AnchorBytes(key, s, 0, p);
      MatchedBytes(key, s, a, 0);
      AnchoredIffNotHidden(key, s, a);
      assert PartialMatchBefore(key, s, p, p - a) && !Hidden(key, s, p - (p - a));
    } else {
      forall k | PartialMatchBefore(key, s, p, k)
        ensures Hidden(key, s, p - k)
      {
        AnchoredIffNotHidden(key, s, p - k);
        if Anchor(key, s, 0, p - k) == p - k {
          AnchorPassesThrough(key, s, 0, p - k, p);
          MatchedIsLongest(key, s, p - k, 0, k);
        }
      }
    }
  }

  lemma NextIsAnchored(key: string, s: string, q: nat)
    requires Anchor(key, s, 0, q) == q
    ensures var next := q + Matched(key, s, q, 0) + 1; Anchor(key, s, 0, next) == next
  {
    AnchorPassesThrough(key, s, 0, q, q + Matched(key, s, q, 0) + 1);
  }

  /** The matcher passes over occurrences that are hidden. */
  lemma {:induction false} ScanReaches(key: string, s: string, q: nat, p: nat)
    requires q <= p < |s| && HiddenBefore(key, s, p)
    requires Anchor(key, s, 0, q) == q && Anchor(key, s, 0, p) == p
    ensures Scan(key, s, q) == Scan(key, s, p)
    decreases p - q
  {
    if q < p {
      AnchoredIffNotHidden(key, s, q);
      MatchedBytes(key, s, q, 0);
      AnchorPassesThrough(key, s, 0, q, p);
      NextIsAnchored(key, s, q);
      ScanReaches(key, s, q + Matched(key, s, q, 0) + 1, p);
    }
  }

  lemma {:induction false} ScanFindsAnchored(key: string, s: string, q: nat)
    requires Anchor(key, s, 0, q) == q
    ensures match Scan(key, s, q) case None => true case Some(p) => Anchor(key, s, 0, p) == p
    decreases |s| - q
  {
    if q < |s| && Matched(key, s, q, 0) < |key| {
      NextIsAnchored(key, s, q);
      ScanFindsAnchored(key, s, q + Matched(key, s, q, 0) + 1);
    }
  }

  lemma FirstInTheOpenIsFound(key: string, s: string, p: nat)
    requires key != "" && FirstInTheOpen(key, s, p)
    ensures Scan(key, s, 0) == Some(p)
  {
    AnchoredIffNotHidden(key, s, p);
    ScanReaches(key, s, 0, p);
    MatchedBytes(key, s, p, 0);
  }

  lemma {:induction false} SomeFirstInTheOpen(key: string, s: string, p: nat)
    requires InTheOpen(key, s, p)
    ensures exists m: nat :: m <= p && FirstInTheOpen(key, s, m)
    decreases p
  {
    if HiddenBefore(key, s, p) {
      assert FirstInTheOpen(key, s, p);
    } else {
      var q: nat :| q < p && OccursAt(key, s, q) && !Hidden(key, s, q);
      SomeFirstInTheOpen(key, s, q);
    }
  }

  lemma FoundIsInTheOpen(key: string, s: string)
    ensures match Scan(key, s, 0) case None => true case Some(p) => exists m: nat :: InTheOpen(key, s, m)
  {
    var hit := Scan(key, s, 0);
    if hit.Some? && !InTheOpen(key, s, hit.value) {
      ScanIsSound(key, s, 0);
      ScanFindsAnchored(key, s, 0);
      if HiddenBefore(key, s, hit.value) {
        AnchoredIffNotHidden(key, s, hit.value);
      } else {
        var q: nat :| q < hit.value && OccursAt(key, s, q) && !Hidden(key, s, q);
        assert InTheOpen(key, s, q);
      }
    }
  }

  /** The matcher reports the first occurrence in the open: one to which no partial match
      runs up that itself starts in the open. */
  lemma FoundIff(key: string, s: string, p: nat)
    requires key != ""
    ensures Scan(key, s, 0) == Some(p) <==> FirstInTheOpen(key, s, p)
  {
    if Scan(key, s, 0) == Some(p) {
      FoundIsInTheOpen(key, s);
      var open: nat :| InTheOpen(key, s, open);
      SomeFirstInTheOpen(key, s, open);
      var m: nat :| FirstInTheOpen(key, s, m);
      FirstInTheOpenIsFound(key, s, m);
    } else if FirstInTheOpen(key, s, p) {
      FirstInTheOpenIsFound(key, s, p);
    }
  }

  /** The search succeeds if and only if some occurrence is in the open. */
  lemma SearchSucceedsIff(key: string, s: string)
    requires key != ""
    ensures Scan(key, s, 0).Some? <==> exists p: nat :: InTheOpen(key, s, p)
  {
    FoundIsInTheOpen(key, s);
    if open: nat :| InTheOpen(key, s, open) {
      SomeFirstInTheOpen(key, s, open);
      var m: nat :| FirstInTheOpen(key, s, m);
      FirstInTheOpenIsFound(key, s, m);
    }
  }

  /** The very first occurrence is found if and only if it is not hidden. */
  lemma FirstOccurrenceFoundIff(key: string, s: string, p: nat)
    requires key != "" && FirstOccurrence(key, s, p)
    ensures Scan(key, s, 0) == Some(p) <==> !Hidden(key, s, p)
  {
    FoundIff(key, s, p);
  }

  lemma PartialMatchEnds(key: string, s: string, p: nat, k: nat)
    requires PartialMatchBefore(key, s, p, k)
    ensures s[p - 1] in key[..|key| - 1]
  {
    assert s[p - k + (k - 1)] == key[k - 1] == key[..|key| - 1][k - 1];
  }

  /** Enough for a caller: the occurrence starts the text, or the byte before it is none
      of those that can end a partial match. */
  lemma FoundAfterOtherByte(key: string, s: string, p: nat)
    requires key != "" && FirstOccurrence(key, s, p)
    requires p == 0 || s[p - 1] !in key[..|key| - 1]
    ensures Scan(key, s, 0) == Some(p)
  {
    FirstOccurrenceFoundIff(key, s, p);
    if Hidden(key, s, p) {
      var k: nat :| PartialMatchBefore(key, s, p, k) && !Hidden(key, s, p - k);
      PartialMatchEnds(key, s, p, k);
    }
  }

  /** In particular at the start of a subject line, or right behind a '/'. */
  lemma FoundAtStartOrAfterSlash(s: string, p: nat)
    requires FirstOccurrence("emailAddress=", s, p) && (p == 0 || s[p - 1] == '/')
    ensures Scan(KEY, s, 0) == Some(p) && s[p..p + 13] == "emailAddress="
  {
    assert '/' !in KEY[..|KEY| - 1];
    FoundAfterOtherByte(KEY, s, p);
    OccurrenceText(KEY, s, p);
  }

  lemma NoKeyLater(tail: string, p: nat)
    requires 'm' !in tail && p >= 2
    ensures !OccursAt(KEY, "e" + KEY + tail, p)
  {
    var s := "e" + KEY + tail;
    assert KEY[1] == 'm' && forall i :: 2 <= i < |KEY| ==> KEY[i] != 'm';
    assert p + 1 < 1 + |KEY| ==> s[p + 1] == KEY[p];
    assert 1 + |KEY| <= p + 1 < |s| ==> s[p + 1] == tail[p - |KEY|];
    assert p + 1 < |s| ==> s[p + 1] != KEY[1];
  }

  lemma AttemptCosts(key: string, s: string, q: nat, k: nat)
    requires q + k < |s| && PrefixAt(key, s, q, k) && k < |key| && s[q + k] != key[k]
    ensures Scan(key, s, q) == Scan(key, s, q + k + 1)
  {
    MatchedIsLongest(key, s, q, 0, k);
    MatchedBytes(key, s, q, 0);
  }

  /** An "e" just before the key hides it, whatever follows without another "m". */
  lemma HiddenByOneLetter(tail: string)
    requires 'm' !in tail
    ensures var s := "e" + "emailAddress=" + tail;
            OccursAt("emailAddress=", s, 1) && Scan(KEY, s, 0) == None
  {
    var s := "e" + KEY + tail;
    AttemptCosts(KEY, s, 0, 1);
    ScanIsSound(KEY, s, 2);
    if Scan(KEY, s, 2).Some? {
      NoKeyLater(tail, Scan(KEY, s, 2).value);
    }
  }

  /** What parseEmail copies: everything after the key, up to and including src[srcSize]. */
  function Copied(src: string, srcSize: int): Option<string>
    requires srcSize < |src|
  {
    if srcSize < 0 then None
    else
      var s := src[..srcSize];
      ScanIsSound(KEY, s, 0);
      var hit := Scan(KEY, s, 0);
      if hit.None? then None else Some(src[hit.value + |KEY|..srcSize + 1])
  }

  /** The text has the key at a place where the matcher sees it. */
  ghost predicate KeyInTheOpen(s: string) { exists p: nat :: InTheOpen("emailAddress=", s, p) }

  lemma CopiedIff(src: string, srcSize: int)
    requires srcSize < |src|
    ensures Copied(src, srcSize).Some? <==> srcSize >= 0 && KeyInTheOpen(src[..srcSize])
  {
    if srcSize >= 0 {
      SearchSucceedsIff(KEY, src[..srcSize]);
    }
  }

  /** The copy is of every byte from behind the first key in the open, 13 bytes on, through
      src[srcSize]. */
  lemma CopiedBytes(src: string, srcSize: nat, p: nat)
    requires srcSize < |src| && FirstInTheOpen("emailAddress=", src[..srcSize], p)
    ensures var w := Copied(src, srcSize);
            && w.Some? && |w.value| == srcSize - p - 12
            && forall i :: 0 <= i < |w.value| ==> w.value[i] == src[p + 13 + i]
  {
    FoundIff(KEY, src[..srcSize], p);
  }

  /** On a NUL-terminated text `dest` as a C string is everything after the first key in
      the open. */
  lemma CopiedAsCString(text: string, p: nat, tail: string, room: nat)
    requires NUL !in text && FirstInTheOpen("emailAddress=", text, p)
    requires tail != "" && tail[0] == NUL && |text| - p - 12 <= room
    ensures var w := Copied(text + tail, |text|);
            w.Some? && |w.value| <= room
            && CStr(w.value + Zeros(room - |w.value|)) == text[p + 13..]
  {
    assert (text + tail)[..|text|] == text;
    CopiedBytes(text + tail, |text|, p);
    var w := Copied(text + tail, |text|).value;
    assert w == text[p + 13..] + [NUL];
    var z := Zeros(room - |w|);
    assert w + z == text[p + 13..] + ([NUL] + z);
    CStrOfTerminated(text[p + 13..], [NUL] + z);
  }

  /** The copy loop's test: four inequalities joined by "or", of which one always holds. */
  predicate StillSeeking(c: char) { c != '\r' || c != '\n' || c != ' ' || c != '\0' }

  /** The loop stands `k` bytes into an attempt that began afresh at `q`. */
  predicate Attempt(key: string, s: string, q: nat, k: nat) {
    && k < |key| && q + k <= |s|
    && Scan(key, s, q) == Scan(key, s, 0) && Matched(key, s, q, k) == Matched(key, s, q, 0)
  }

  lemma ByteMatches(key: string, s: string, q: nat, k: nat)
    requires Attempt(key, s, q, k) && q + k < |s| && s[q + k] == key[k]
    ensures if k + 1 == |key| then Scan(key, s, 0) == Some(q) else Attempt(key, s, q, k + 1)
  {
    assert Matched(key, s, q, k) == Matched(key, s, q, k + 1);
  }

  lemma ByteDiffers(key: string, s: string, q: nat, k: nat)
    requires Attempt(key, s, q, k) && q + k < |s| && s[q + k] != key[k]
    ensures Attempt(key, s, q + k + 1, 0)
  {
    assert Matched(key, s, q, k) == k;
  }

  lemma TextExhausted(key: string, s: string, q: nat, k: nat)
    requires Attempt(key, s, q, k) && q + k == |s|
    ensures Scan(key, s, 0) == None
  {
    assert Matched(key, s, q, k) == k;
    if q < |s| {
      assert Scan(key, s, q) == Scan(key, s, q + k + 1) == None;
    }
  }

  /** The matching loop with its two cursors: the offset of the key's last byte, or srcSize. */
  method FindKey(key: string, src: array<char>, srcSize: int) returns (initOffset: nat, found: bool)
    requires srcSize < src.Length && key != ""
    ensures found <==> srcSize >= 0 && Scan(key, src[..srcSize], 0).Some?
    ensures found ==> initOffset + 1 == Scan(key, src[..srcSize], 0).value + |key| && initOffset < srcSize
  {
    initOffset := 0;
    if srcSize < 0 {
      return 0, false;
    }
    ghost var s := src[..srcSize];
    var curCheckOffset := 0;
    while initOffset < srcSize
      invariant 0 <= curCheckOffset <= initOffset <= srcSize
      invariant Attempt(key, s, initOffset - curCheckOffset, curCheckOffset)
    {
      ghost var q := initOffset - curCheckOffset;
      assert src[initOffset] == s[initOffset];
      if src[initOffset] == key[curCheckOffset] {
        ByteMatches(key, s, q, curCheckOffset);
        curCheckOffset := curCheckOffset + 1;
        if curCheckOffset == |key| {
          return initOffset, true;
        }
      } else {
        ByteDiffers(key, s, q, curCheckOffset);
        curCheckOffset := 0;
      }
      initOffset := initOffset + 1;
    }
    TextExhausted(key, s, initOffset - curCheckOffset, curCheckOffset);
    found := false;
  }

  /** The code: find the key, rebase `init` behind it, seek the end and copy out. */
  method ParseEmail(src: array?<char>, srcSize: int, dest: array?<char>) returns (r: int)
    requires src != null ==> srcSize < src.Length && src != dest
    requires src != null && dest != null ==>
               match Copied(src[..], srcSize) case None => true case Some(w) => |w| <= dest.Length
    modifies if dest == null then {} else {dest}
    ensures r == 1 || r == -1
    ensures r == 1 <==> src != null && dest != null && srcSize >= 0 && KeyInTheOpen(old(src[..srcSize]))
    ensures r == -1 && dest != null ==> dest[..] == old(dest[..])
    ensures r == 1 ==>
              var w := Copied(old(src[..]), srcSize);
              w.Some? && dest[..] == w.value + Zeros(dest.Length - |w.value|)
    ensures r == 1 ==>
              forall p: nat :: FirstInTheOpen("emailAddress=", old(src[..srcSize]), p) ==>
                p + 13 <= srcSize && srcSize - p - 12 <= dest.Length
                && dest[..srcSize - p - 12] == old(src[..])[p + 13..srcSize + 1]
  {
    if src == null || dest == null {
      return -1;
    }
    ghost var text := src[..];
    CopiedIff(text, srcSize);
    var initOffset, found := FindKey(KEY, src, srcSize);
    assert srcSize >= 0 ==> src[..][..srcSize] == src[..srcSize];
    if !found {
      return -1;
    }
    var init := initOffset + 1;
    var rSeeker := 0;
    while initOffset + rSeeker < srcSize && StillSeeking(src[init + rSeeker])
      invariant 0 <= rSeeker <= srcSize - initOffset
    {
      rSeeker := rSeeker + 1;
    }
    assert Copied(src[..], srcSize).value == src[init..init + rSeeker];
    assert text[..srcSize] == src[..srcSize];
    CopyOut(src, init, rSeeker, dest);
    forall p: nat | FirstInTheOpen("emailAddress=", text[..srcSize], p)
      ensures p + 13 <= srcSize && srcSize - p - 12 <= dest.Length
      ensures dest[..srcSize - p - 12] == text[p + 13..srcSize + 1]
    {
      CopiedBytes(text, srcSize, p);
    }
    return 1;
  }

  /** bzero and memcpy. */
  method CopyOut(src: array<char>, from: nat, n: nat, dest: array<char>)
    requires src != dest && from + n <= src.Length && n <= dest.Length
    modifies dest
    ensures dest[..] == old(src[from..from + n]) + Zeros(dest.Length - n)
  {
    forall i | 0 <= i < dest.Length {
      dest[i] := NUL;
    }
    forall i | 0 <= i < n {
      dest[i] := src[from + i];
    }
    assert dest[..n] == src[from..from + n];
    assert dest[n..] == Zeros(dest.Length - n);
    assert dest[..] == dest[..n] + dest[n..];
  }
}

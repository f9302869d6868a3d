/** strtok: the pure tokeniser, the in-place one with its saved position, and why it
    undoes the joining of separated words. */
module Tokens {
  import opened CText

  datatype Option<T> = None | Some(value: T)

  /** The text from its first non-delimiter on. */
  function SkipDelims(s: string, delims: string): (r: string)
    ensures |r| <= |s| && r == s[|s| - |r|..]
    ensures r != "" ==> r[0] !in delims
  {
    if s == "" || s[0] !in delims then s else SkipDelims(s[1..], delims)
  }

  /** The length of the text before its first delimiter. */
  function TokenLength(s: string, delims: string): (n: nat)
    ensures n <= |s| && (n < |s| ==> s[n] in delims)
    ensures forall i :: 0 <= i < n ==> s[i] !in delims
  {
    if s == "" || s[0] in delims then 0 else 1 + TokenLength(s[1..], delims)
  }

  /** The token at the start of a text, if there is any text, and what stands behind the
      delimiter that ends it. */
  function TakeToken(t: string, delims: string): (Option<string>, string) {
    if t == "" then (None, "")
    else
      var n := TokenLength(t, delims);
      (Some(t[..n]), if n < |t| then t[n + 1..] else "")
  }

  /** One call of strtok on the text still to be scanned: the token, if any, and what
      the next call will scan. */
  function Strtok(s: string, delims: string): (Option<string>, string) {
    TakeToken(SkipDelims(s, delims), delims)
  }

  lemma TokenInParts(t: string, word: string, rest: string, delims: string)
    requires t != "" && word == t[..TokenLength(t, delims)] && rest == t[|word|..]
    ensures TakeToken(t, delims) == (Some(word), if rest == "" then "" else rest[1..])
  {
    AfterDelim(t, |word|, rest);
  }

  lemma AfterDelim(t: string, n: nat, rest: string)
    requires n <= |t| && rest == t[n..]
    ensures (if n < |t| then t[n + 1..] else "") == if rest == "" then "" else rest[1..]
  {
  }

  lemma StrtokInParts(s: string, word: string, rest: string, delims: string)
    requires SkipDelims(s, delims) != ""
    requires word == SkipDelims(s, delims)[..TokenLength(SkipDelims(s, delims), delims)]
    requires rest == SkipDelims(s, delims)[|word|..]
    ensures Strtok(s, delims) == (Some(word), if rest == "" then "" else rest[1..])
  {
    TokenInParts(SkipDelims(s, delims), word, rest, delims);
  }

  predicate Free(word: string, delims: string) { forall i :: 0 <= i < |word| ==> word[i] !in delims }

  predicate Only(lead: string, delims: string) { forall i :: 0 <= i < |lead| ==> lead[i] in delims }

  /** A word without delimiters, before a delimiter or the end, is the next token. */
  lemma StrtokTakesWord(lead: string, word: string, rest: string, delims: string)
    requires word != "" && Free(word, delims) && Only(lead, delims)
    requires rest == "" || rest[0] in delims
    ensures Strtok(lead + word + rest, delims)
         == (Some(word), if rest == "" then "" else rest[1..])
  {
    assert lead + word + rest == lead + (word + rest);
    var t := word + rest;
    assert t[0] == word[0];
    SkipLead(lead, t, delims);
    WordLength(word, rest, delims);
    assert t[..|word|] == word;
    assert rest != "" ==> t[|word| + 1..] == rest[1..];
  }

  lemma {:induction false} SkipLead(lead: string, t: string, delims: string)
    requires Only(lead, delims)
    requires t == "" || t[0] !in delims
    ensures SkipDelims(lead + t, delims) == t
  {
    if lead == "" {
      assert lead + t == t;
    } else {
      assert (lead + t)[1..] == lead[1..] + t;
      SkipLead(lead[1..], t, delims);
    }
  }

  lemma {:induction false} SkipSkipsLead(lead: string, s: string, delims: string)
    requires Only(lead, delims)
    ensures SkipDelims(lead + s, delims) == SkipDelims(s, delims)
  {
    if lead == "" {
      assert lead + s == s;
    } else {
      assert (lead + s)[0] == lead[0] && (lead + s)[1..] == lead[1..] + s;
      SkipSkipsLead(lead[1..], s, delims);
    }
  }

  /** Delimiters in front make no difference. */
  lemma StrtokSkipsLead(lead: string, s: string, delims: string)
    requires Only(lead, delims)
    ensures Strtok(lead + s, delims) == Strtok(s, delims)
  {
    SkipSkipsLead(lead, s, delims);
    SameTokens(lead + s, s, delims);
  }

  lemma SameTokens(s: string, t: string, delims: string)
    requires SkipDelims(s, delims) == SkipDelims(t, delims)
    ensures Strtok(s, delims) == Strtok(t, delims)
  {
  }

  lemma {:induction false} WordLength(word: string, rest: string, delims: string)
    requires Free(word, delims)
    requires rest == "" || rest[0] in delims
    ensures TokenLength(word + rest, delims) == |word|
  {
    if word == "" {
      assert word + rest == rest;
    } else {
      assert (word + rest)[1..] == word[1..] + rest;
      WordLength(word[1..], rest, delims);
    }
  }

  lemma {:induction false} TokenEnds(s: string, n: nat, delims: string)
    requires n <= |s| && (n == |s| || s[n] in delims)
    requires forall i :: 0 <= i < n ==> s[i] !in delims
    ensures TokenLength(s, delims) == n
  {
    if n > 0 {
      TokenEnds(s[1..], n - 1, delims);
    }
  }

  /** What strtok returns in its call number `k`, counted from zero. */
  function TokenAt(s: string, k: nat, delims: string): Option<string>
    decreases k
  {
    var (tok, rest) := Strtok(s, delims);
    if k == 0 then tok else TokenAt(rest, k - 1, delims)
  }

  /** All tokens of a text, by calling strtok until it returns nothing. */
  function AllTokens(s: string, delims: string): seq<string>
    decreases |s|
  {
    var (tok, rest) := Strtok(s, delims);
    if tok.None? then [] else [tok.value] + AllTokens(rest, delims)
  }

  /** Words printed one a line, each ended by CRLF. */
  function PrintLines(words: seq<string>): string {
    if words == [] then "" else words[0] + CRLF + PrintLines(words[1..])
  }

  lemma TwoLines(a: string, b: string)
    ensures PrintLines([a, b]) == a + CRLF + (b + CRLF) == a + CRLF + b + CRLF
  {
    assert [a, b][1..] == [b];
    assert PrintLines([b]) == b + CRLF + PrintLines([b][1..]) == b + CRLF;
  }

  lemma FourLines(a: string, b: string, c: string, d: string)
    ensures PrintLines([a, b, c, d]) == a + CRLF + b + CRLF + c + CRLF + d + CRLF
  {
    var words := [a, b, c, d];
    TwoLines(c, d);
    assert words[1..][1..] == [c, d];
    assert PrintLines(words[1..]) == b + CRLF + PrintLines(words[1..][1..]);
  }

  predicate Word(w: string) { w != "" && NUL !in w && Free(w, CRLF) }

  /** One strtok call on printed lines takes the first word; the LF stays for the next call to skip. */
  lemma StrtokTakesLine(lead: string, words: seq<string>)
    requires words != [] && Word(words[0]) && Only(lead, CRLF)
    ensures Strtok(lead + PrintLines(words), CRLF) == (Some(words[0]), "\n" + PrintLines(words[1..]))
  {
    var later := PrintLines(words[1..]);
    Regroup(lead, words[0], later);
    StrtokTakesWord(lead, words[0], CRLF + later, CRLF);
  }

  lemma Regroup(lead: string, word: string, later: string)
    ensures lead + (word + CRLF + later) == lead + word + (CRLF + later)
    ensures (CRLF + later)[0] == '\r' && (CRLF + later)[1..] == "\n" + later
  {
  }

  /** Where nothing but delimiters is left there is no token, nor later. */
  lemma StrtokNothing(lead: string, delims: string)
    requires Only(lead, delims)
    ensures Strtok(lead, delims) == (None, "") && AllTokens(lead, delims) == []
  {
    SkipLead(lead, "", delims);
    assert lead + "" == lead;
  }

  lemma TokenInFront(s: string, rest: string, words: seq<string>, delims: string)
    requires words != [] && Strtok(s, delims) == (Some(words[0]), rest)
    requires AllTokens(rest, delims) == words[1..]
    ensures AllTokens(s, delims) == words
  {
  }

  lemma TokenStep(s: string, tok: Option<string>, rest: string, k: nat, delims: string)
    requires Strtok(s, delims) == (tok, rest)
    ensures TokenAt(s, k, delims) == if k == 0 then tok else TokenAt(rest, k - 1, delims)
  {
  }

  lemma {:induction false} NoTokenAt(s: string, k: nat)
    requires Only(s, CRLF)
    ensures TokenAt(s, k, CRLF) == None
    decreases k
  {
    StrtokNothing(s, CRLF);
    TokenStep(s, None, "", k, CRLF);
    if k > 0 {
      NoTokenAt("", k - 1);
    }
  }

  /** The calls on `s` return `words`, one after the other, and then nothing. */
  predicate WordAt(s: string, words: seq<string>, k: nat) {
    TokenAt(s, k, CRLF) == if k < |words| then Some(words[k]) else None
  }

  lemma WordBehind(s: string, rest: string, words: seq<string>, later: seq<string>, k: nat)
    requires words != [] && later == words[1..] && Strtok(s, CRLF) == (Some(words[0]), rest)
    requires k > 0 ==> WordAt(rest, later, k - 1)
    ensures WordAt(s, words, k)
  {
    TokenStep(s, Some(words[0]), rest, k, CRLF);
  }

  lemma LineInFront(s: string, lead: string, words: seq<string>, later: seq<string>)
    requires s == lead + PrintLines(words) && words != [] && Word(words[0]) && later == words[1..] && Only(lead, CRLF)
    ensures Strtok(s, CRLF) == (Some(words[0]), "\n" + PrintLines(later))
  {
    StrtokTakesLine(lead, words);
  }

  lemma LfSeparates()
    ensures Only("\n", CRLF)
  {
  }

  /** The calls return the words of printed lines, one after the other, and then nothing. */
  lemma {:induction false} TokenOfLines(s: string, lead: string, words: seq<string>, k: nat)
    requires s == lead + PrintLines(words)
    requires Only(lead, CRLF) && forall i :: 0 <= i < |words| ==> Word(words[i])
    ensures WordAt(s, words, k)
    decreases k
  {
    if words == [] {
      assert s == lead;
      NoTokenAt(s, k);
    } else {
      var later := words[1..];
      var rest := "\n" + PrintLines(later);
      LineInFront(s, lead, words, later);
      if k > 0 {
        LfSeparates();
        TokenOfLines(rest, "\n", later, k - 1);
      }
      WordBehind(s, rest, words, later, k);
    }
  }

  /** Tokenising undoes printing, for any list of words. */
  lemma {:induction false} TokensOfLines(lead: string, words: seq<string>)
    requires Only(lead, CRLF) && forall i :: 0 <= i < |words| ==> Word(words[i])
    ensures AllTokens(lead + PrintLines(words), CRLF) == words
    decreases words
  {
    if words == [] {
      StrtokNothing(lead, CRLF);
      assert lead + PrintLines(words) == lead;
    } else {
      StrtokTakesLine(lead, words);
      TokensOfLines("\n", words[1..]);
      TokenInFront(lead + PrintLines(words), "\n" + PrintLines(words[1..]), words, CRLF);
    }
  }

  lemma PrintedLinesTokenise(words: seq<string>)
    requires forall i :: 0 <= i < |words| ==> Word(words[i])
    ensures AllTokens(PrintLines(words), CRLF) == words
  {
    assert "" + PrintLines(words) == PrintLines(words);
    TokensOfLines("", words);
  }

  /** A scan over `n` bytes that are neither NUL nor delimiter, up to one that is. */
  lemma TokenEndsAt(buf: string, n: nat, delims: string)
    requires n < |buf| && (buf[n] == NUL || buf[n] in delims)
    requires forall i :: 0 <= i < n ==> buf[i] != NUL && buf[i] !in delims
    ensures n <= |CStr(buf)| && TokenLength(CStr(buf), delims) == n
    ensures CStr(buf)[..n] == buf[..n] && CStr(buf[n..]) == CStr(buf)[n..]
  {
    var s := CStr(buf);
    assert |s| < |buf| ==> buf[|s|] == NUL;
    assert n < |s| ==> s[n] == buf[n];
    CStrDrop(buf, n);
    TokenEnds(s, n, delims);
  }

  lemma CStrCons(c: char, t: string)
    requires c != NUL
    ensures CStr([c] + t) == [c] + CStr(t)
  {
    assert ([c] + t)[1..] == t;
  }

  lemma SkipCons(c: char, s: string, delims: string)
    requires c in delims
    ensures SkipDelims([c] + s, delims) == SkipDelims(s, delims)
  {
    assert ([c] + s)[1..] == s;
  }

  /** A scan over `n` delimiters up to a byte that is none. */
  lemma {:induction false} SkipEndsAt(buf: string, n: nat, delims: string)
    requires NUL !in delims && n < |buf| && buf[n] !in delims
    requires forall i :: 0 <= i < n ==> buf[i] in delims
    ensures CStr(buf[n..]) == SkipDelims(CStr(buf), delims)
  {
    if n == 0 {
      assert buf[0..] == buf;
    } else {
      var later := buf[1..];
      CStrCons(buf[0], later);
      SkipCons(buf[0], CStr(later), delims);
      assert buf == [buf[0]] + later;
      SkipEndsAt(later, n - 1, delims);
      assert later[n - 1..] == buf[n..];
    }
  }

  /** strtok with its hidden state: the text is an array, `next` the saved pointer. */
  class Tokenizer {
    const text: array<char>
    var next: nat
    /** Where the text's terminating NUL stands. */
    ghost const end: nat

    ghost predicate Valid()
      reads this, text
    {
      next <= end < text.Length && text[end] == NUL
    }

    /** The C string the next call will scan. */
    ghost function Rest(): string
      reads this, text
      requires Valid()
    {
      CStr(text[next..])
    }

    constructor (text: array<char>)
      requires NUL in text[..]
      ensures Valid() && this.text == text && Rest() == CStr(text[..])
    {
      this.text, next := text, 0;
      ghost var i :| 0 <= i < text.Length && text[i] == NUL;
      this.end := i;
      new;
      assert text[0..] == text[..];
    }

    /** strspn over the text from `next` on, which is `buf`. */
    method CountDelims(delims: string, ghost buf: string) returns (n: nat)
      requires Valid() && NUL !in delims && buf == text[next..]
      ensures next + n <= end && buf[n] !in delims
      ensures forall i :: 0 <= i < n ==> buf[i] in delims
    {
      n := 0;
      while text[next + n] in delims
        invariant next + n <= end
        invariant forall i :: 0 <= i < n ==> buf[i] in delims
        decreases end - next - n
      {
        assert buf[n] == text[next + n];
        n := n + 1;
      }
      assert buf[n] == text[next + n];
    }

    /** strcspn, likewise. */
    method CountToken(delims: string, ghost buf: string) returns (n: nat)
      requires Valid() && buf == text[next..]
      ensures next + n <= end && (buf[n] == NUL || buf[n] in delims)
      ensures forall i :: 0 <= i < n ==> buf[i] != NUL && buf[i] !in delims
    {
      n := 0;
      while text[next + n] != NUL && text[next + n] !in delims
        invariant next + n <= end
        invariant forall i :: 0 <= i < n ==> buf[i] != NUL && buf[i] !in delims
        decreases end - next - n
      {
        assert buf[n] == text[next + n];
        n := n + 1;
      }
      assert buf[n] == text[next + n];
    }

    method SkipOver(delims: string)
      requires Valid() && NUL !in delims
      modifies this`next
      ensures Valid() && next >= old(next)
      ensures Rest() == SkipDelims(old(Rest()), delims)
    {
      ghost var buf := text[next..];
      var n := CountDelims(delims, buf);
      SkipEndsAt(buf, n, delims);
      var skipped := Advance(n, buf);
    }

    method ScanToken(delims: string) returns (tok: string)
      requires Valid()
      modifies this`next
      ensures Valid() && next >= old(next)
      ensures tok == old(Rest())[..TokenLength(old(Rest()), delims)]
      ensures Rest() == old(Rest())[|tok|..]
    {
      ghost var buf := text[next..];
      var n := CountToken(delims, buf);
      TokenEndsAt(buf, n, delims);
      tok := Advance(n, buf);
    }

    method Advance(n: nat, ghost buf: string) returns (passed: string)
      requires Valid() && next + n <= end && buf == text[next..]
      modifies this`next
      ensures Valid() && next == old(next) + n && passed == buf[..n] && text[next..] == buf[n..]
    {
      passed := text[next..next + n];
      next := next + n;
    }

    /** The delimiter becomes the NUL that ends the token; the next call starts after it. */
    method CutAt()
      requires Valid() && Rest() != ""
      modifies this, text
      ensures Valid() && Rest() == old(Rest())[1..]
      ensures old(next) <= next <= text.Length
      ensures forall i :: 0 <= i < old(next) ==> text[i] == old(text[i])
    {
      ghost var later := text[next + 1..];
      assert text[next..] == [text[next]] + later;
      text[next] := NUL;
      next := next + 1;
      assert text[next..] == later;
    }

    /** One call: the token is cut off in place by a NUL over the delimiter after it. */
    method NextToken(delims: string) returns (tok: Option<string>)
      requires Valid() && NUL !in delims
      modifies this, text
      ensures Valid()
      ensures (tok, Rest()) == Strtok(old(Rest()), delims)
      ensures old(next) <= next <= text.Length
      ensures forall i :: 0 <= i < old(next) ==> text[i] == old(text[i])
    {
      ghost var s := Rest();
      SkipOver(delims);
      NothingLeft();
      if text[next] == NUL {
        tok := None;
      } else {
        var word := ScanToken(delims);
        NothingLeft();
        StrtokInParts(s, word, Rest(), delims);
        tok := Some(word);
        if text[next] != NUL {
          CutAt();
        }
      }
    }

    lemma NothingLeft()
      requires Valid()
      ensures text[next] == NUL <==> Rest() == ""
    {
      assert text[next..][0] == text[next];
    }
  }
}

/**
  The e-commerce chat server's message handling
  (`examples/ecommerce-chat-js/chat-app/server.js`): a chat message is cut
  into sentences at punctuation, and the first two sentences become the
  orchestration's action and product description, with fixed defaults for
  whatever is missing.
 */
module ChatApp {
  import opened Wrappers
  import opened Strs

  /** The character class `[.!?:]`. */
  const Punctuation: set<char> := {'.', '!', '?', ':'}

  const DefaultAction := "I am interested in this product when can I receive it?"
  const DefaultProductDescription := "Peanuts collectible Swatch with red straps."

  /** The trimmed pieces that are not empty, in order (`map(trim)` then `filter(length > 0)`). */
  function TrimNonEmpty(pieces: seq<string>): (r: seq<string>)
    ensures |r| <= |pieces|
    ensures forall i :: 0 <= i < |r| ==> r[i] != "" && TrimSpace(r[i]) == r[i]
    ensures forall p :: p in r <==> p != "" && p in Trimmed(pieces)
  {
    if |pieces| == 0 then []
    else
      var t := TrimSpace(pieces[0]);
      TrimSpaceOfTrimmed(t);
      var rest := TrimNonEmpty(pieces[1..]);
      TrimmedCons(pieces);
      (if t == "" then [] else [t]) + rest
  }

  /**
    Nothing is merged or duplicated: every non-empty trimmed piece is kept
    as many times as it occurs, and the empty ones are all dropped.
   */
  lemma {:induction false} TrimNonEmptyCounts(pieces: seq<string>)
    ensures multiset(TrimNonEmpty(pieces))[""] == 0
    ensures forall p :: p != "" ==> multiset(TrimNonEmpty(pieces))[p] == multiset(Trimmed(pieces))[p]
  {
    if |pieces| > 0 {
      TrimNonEmptyCounts(pieces[1..]);
      var t := TrimSpace(pieces[0]);
      var rest := TrimNonEmpty(pieces[1..]);
      var head := if t == "" then [] else [t];
      assert TrimNonEmpty(pieces) == head + rest;
      assert multiset(head + rest) == multiset(head) + multiset(rest);
      TrimmedCons(pieces);
      assert multiset(Trimmed(pieces)) == multiset([t]) + multiset(Trimmed(pieces[1..]));
    }
  }

  lemma TrimmedCons(pieces: seq<string>)
    requires |pieces| > 0
    ensures Trimmed(pieces) == [TrimSpace(pieces[0])] + Trimmed(pieces[1..])
  {
  }

  /**
    `splitAndTrim`: nothing for a missing or empty message; otherwise the
    message is split at every punctuation mark and the trimmed, non-empty
    pieces are kept.
   */
  function SplitAndTrim(sentence: Option<string>): (r: seq<string>)
    ensures sentence.None? || sentence == Some("") ==> r == []
    ensures forall i :: 0 <= i < |r| ==> r[i] != "" && TrimSpace(r[i]) == r[i]
    ensures forall i :: 0 <= i < |r| ==> Avoids(r[i], Punctuation)
  {
    if sentence.None? || |sentence.value| < 1 then []
    else
      var pieces := Split(sentence.value, Punctuation);
      assert forall j :: 0 <= j < |pieces| ==> Avoids(pieces[j], Punctuation);
      TrimNonEmptyAvoids(pieces, Punctuation);
      TrimNonEmpty(pieces)
  }

  /** No character of `s` is in `delims`. */
  predicate Avoids(s: string, delims: set<char>) {
    forall k :: 0 <= k < |s| ==> s[k] !in delims
  }

  /** Trimming keeps a slice, so it adds no character. */
  lemma TrimSpaceAvoids(s: string, delims: set<char>)
    requires Avoids(s, delims)
    ensures Avoids(TrimSpace(s), delims)
  {
    var r := TrimSpace(s);
    var i: nat :| SpaceBounded(s, r, i);
    assert forall k :: 0 <= k < |r| ==> r[k] == s[i + k];
  }

  /** Every part is the trimming of some piece, so it avoids what all the pieces avoid. */
  lemma TrimNonEmptyAvoids(pieces: seq<string>, delims: set<char>)
    requires forall j :: 0 <= j < |pieces| ==> Avoids(pieces[j], delims)
    ensures forall i :: 0 <= i < |TrimNonEmpty(pieces)| ==> Avoids(TrimNonEmpty(pieces)[i], delims)
  {
    var r := TrimNonEmpty(pieces);
    var tr := Trimmed(pieces);
    forall i | 0 <= i < |r|
      ensures Avoids(r[i], delims)
    {
      assert r[i] in r;
      var j :| 0 <= j < |tr| && tr[j] == r[i];
      TrimSpaceAvoids(pieces[j], delims);
    }
  }

  /** `a` lists some of the elements of `b`, in the same order. */
  predicate IsSubsequence(a: seq<string>, b: seq<string>)
    decreases |b|
  {
    if |a| == 0 then true
    else if |b| == 0 then false
    else (a[0] == b[0] && IsSubsequence(a[1..], b[1..])) || IsSubsequence(a, b[1..])
  }

  /** The pieces trimmed, one for one. */
  function Trimmed(pieces: seq<string>): (r: seq<string>)
    ensures |r| == |pieces| && forall i :: 0 <= i < |pieces| ==> r[i] == TrimSpace(pieces[i])
  {
    seq(|pieces|, i requires 0 <= i < |pieces| => TrimSpace(pieces[i]))
  }

  /** The parts keep the order of the pieces they come from. */
  lemma {:induction false} TrimNonEmptyKeepsOrder(pieces: seq<string>)
    ensures IsSubsequence(TrimNonEmpty(pieces), Trimmed(pieces))
    decreases |pieces|
  {
    if |pieces| > 0 {
      TrimNonEmptyKeepsOrder(pieces[1..]);
      var t := TrimSpace(pieces[0]);
      var rest := TrimNonEmpty(pieces[1..]);
      var tb := Trimmed(pieces);
      assert tb[0] == t && tb[1..] == Trimmed(pieces[1..]);
      if t == "" {
        assert TrimNonEmpty(pieces) == rest;
        if |rest| > 0 {
          assert IsSubsequence(rest, tb[1..]);
        }
      } else {
        assert TrimNonEmpty(pieces) == [t] + rest;
        assert ([t] + rest)[1..] == rest;
      }
    }
  }

  /** The message's parts appear in the order of the message's sentences. */
  lemma SplitAndTrimKeepsOrder(s: string)
    requires s != ""
    ensures IsSubsequence(SplitAndTrim(Some(s)), Trimmed(Split(s, Punctuation)))
  {
    TrimNonEmptyKeepsOrder(Split(s, Punctuation));
  }

  /** What the handler sends: the action and the product description. */
  datatype Selection = Selection(action: string, productDescription: string)

  /**
    The payload selection in the `chat message` handler: the first part is
    the action and the second the product description, each replaced by
    its default when the message has too few parts.
   */
  function SelectPayload(content: Option<string>): (r: Selection)
    ensures var parts := SplitAndTrim(content);
      && (|parts| > 0 ==> r.action == parts[0])
      && (|parts| == 0 ==> r.action == DefaultAction)
      && (|parts| > 1 ==> r.productDescription == parts[1])
      && (|parts| <= 1 ==> r.productDescription == DefaultProductDescription)
    ensures r.action != "" && r.productDescription != ""
  {
    var parts := SplitAndTrim(content);
    Selection(
      if |parts| > 0 then parts[0] else DefaultAction,
      if |parts| > 1 then parts[1] else DefaultProductDescription)
  }

  /**
    Two clean sentences separated by a full stop: the first becomes the
    action and the second the product description, verbatim.
   */
  lemma TwoSentences(a: string, b: string)
    requires a != "" && b != ""
    requires forall k :: 0 <= k < |a| ==> a[k] !in Punctuation
    requires forall k :: 0 <= k < |b| ==> b[k] !in Punctuation
    requires !IsSpace(a[0]) && !IsSpace(a[|a| - 1]) && !IsSpace(b[0]) && !IsSpace(b[|b| - 1])
    ensures SelectPayload(Some(a + "." + b)) == Selection(a, b)
  {
    SplitAtFirst(a, '.', b, Punctuation);
    SplitNoDelim(b, Punctuation);
    TrimSpaceOfTrimmed(a);
    TrimSpaceOfTrimmed(b);
    assert a + "." + b == a + ['.'] + b;
    var pieces := Split(a + "." + b, Punctuation);
    assert pieces == [a, b];
    assert pieces[1..] == [b];
    assert pieces[1..][1..] == [];
    assert TrimNonEmpty(pieces) == [a, b];
  }

  /** A message without text gets both defaults. */
  lemma EmptyMessageGetsDefaults()
    ensures SelectPayload(None) == Selection(DefaultAction, DefaultProductDescription)
    ensures SelectPayload(Some("")) == Selection(DefaultAction, DefaultProductDescription)
  {
  }
}

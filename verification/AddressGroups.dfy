/**
 * Phrases and groups in address lists: what is written from the grammar of
 * RFC 5322 is read by `src/address.ts` as what it was written from.
 */
module AddressGroups {
  import opened Common
  import opened AddressErrors
  import opened AddressGrammar
  import opened Address
  import opened AddressReading
  import opened AddressRoundTrip
  import opened AddressLists
  import opened FoldingSpace
  import Idna

  // --------------------------------------------------------------- phrases

  /** A word of a phrase; a dot is one in the obsolete form of section 4.1 of RFC 5322. */
  datatype Word = Period | Atomic(text: Text) | Quotation(text: Text)

  predicate IsWord(w: Word) {
    match w
    case Period => true
    case Atomic(a) => IsAtom(a)
    case Quotation(q) => Plain(q)
  }

  function WordText(w: Word): Text {
    match w
    case Period => [DOT]
    case Atomic(a) => a
    case Quotation(q) => Quote(q)
  }

  /** What a word says. */
  function Value(w: Word): Text { if w.Period? then [DOT] else w.text }

  /** A word and the white space behind it. */
  datatype Item = Item(word: Word, gap: seq<Piece>)

  function PhraseOf(items: seq<Item>): Text {
    if items == [] then [] else WordText(items[0].word) + (GapText(items[0].gap) + PhraseOf(items[1..]))
  }

  /** Words that can be told apart, and no dot before anything was said. */
  predicate Chained(items: seq<Item>, silent: bool) {
    items == []
    || (&& IsWord(items[0].word) && IsGap(items[0].gap) && (items[0].word.Period? ==> !silent)
        && (|items| > 1 && items[0].word.Atomic? && items[1].word.Atomic? ==> items[0].gap != [])
        && Chained(items[1..], silent && Value(items[0].word) == []))
  }

  /** A phrase: at least one word, and the first that says something is no dot. */
  predicate IsPhrase(items: seq<Item>) { items != [] && Chained(items, true) }

  /** The words said, with one space where white space or a comment stands between two of them. */
  function Said(items: seq<Item>, before: Text, apart: bool): Text {
    if items == [] then before
    else
      var space := if apart && before != [] then [SPACE] else [];
      Said(items[1..], before + space + Value(items[0].word), items[0].gap != [])
  }

  /** What ends a phrase in front of an address or the members of a group. */
  predicate Closing(tail: Text) { tail != [] && (tail[0] == COLON || tail[0] == LESS) }

  lemma ClosingEnds(tail: Text)
    requires Closing(tail)
    ensures tail != [] && Still(tail) && EndsPhrase(tail) && !IsAtomChar(tail[0]) && tail[0] !in {AT, DOT, DQUOTE}
  {
  }

  lemma WordStarts(w: Word)
    requires IsWord(w)
    ensures WordText(w) != []
    ensures var c := WordText(w)[0];
      if w.Period? then c == DOT else if w.Quotation? then c == DQUOTE else IsAtomChar(c)
  {
    if w.Atomic? { assert w.text[0] in w.text; }
  }

  /** The start of a word: nothing to skip, and no end of the phrase. */
  lemma WordIsStill(w: Word, s: Text)
    requires IsWord(w)
    ensures var t := WordText(w) + s; Still(t) && t != [] && !EndsPhrase(t) && t[0] == WordText(w)[0] && t[0] != AT
  {
    hide IsAtomChar, WordText, IsWord;
    WordStarts(w);
    var t := WordText(w) + s;
    assert t[0] == WordText(w)[0];
    if w.Atomic? { AtomIsStill(t[0]); }
  }

  /** What comes behind an atom is no part of it. */
  predicate EndsAtom(s: Text) { s != [] && !IsAtomChar(s[0]) }

  lemma GapEndsAtom(ps: seq<Piece>, s: Text)
    requires IsGap(ps) && ps != []
    ensures EndsAtom(GapText(ps) + s)
  {
    hide GapText, IsGap;
    GapStarts(ps);
    assert (GapText(ps) + s)[0] == GapText(ps)[0];
  }

  /** Behind a word: its gap, and the rest of the phrase. */
  function Behind(items: seq<Item>, tail: Text): Text
    requires items != []
  {
    GapText(items[0].gap) + (PhraseOf(items[1..]) + tail)
  }

  lemma PhraseUnfolds(items: seq<Item>, tail: Text)
    requires items != []
    ensures PhraseOf(items) + tail == WordText(items[0].word) + Behind(items, tail)
    ensures |PhraseOf(items)| == |WordText(items[0].word)| + |GapText(items[0].gap)| + |PhraseOf(items[1..])|
    ensures (PhraseOf(items) + tail)[|WordText(items[0].word)|..] == Behind(items, tail)
  {
    hide WordText, GapText;
    var w, g, r := WordText(items[0].word), GapText(items[0].gap), PhraseOf(items[1..]);
    assert w + (g + r) + tail == w + (g + (r + tail));
  }

  /** What is left of a phrase has nothing to skip in front. */
  lemma RestIsStill(items: seq<Item>, silent: bool, tail: Text)
    requires Chained(items, silent) && Closing(tail)
    ensures Still(PhraseOf(items) + tail)
    ensures items != [] ==>
      IsWord(items[0].word) && !EndsPhrase(PhraseOf(items) + tail) && PhraseOf(items) + tail != []
    ensures PhraseOf(items) + tail != [] && (PhraseOf(items) + tail)[0] != AT
  {
    hide WordText, IsWord, IsGap, GapText, Closing, Still;
    ClosingEnds(tail);
    if items == [] {
      assert PhraseOf(items) + tail == tail;
    } else {
      PhraseUnfolds(items, tail);
      WordIsStill(items[0].word, Behind(items, tail));
    }
  }

  lemma BehindAtom(items: seq<Item>, silent: bool, tail: Text)
    requires Chained(items, silent) && Closing(tail) && items != [] && items[0].word.Atomic?
    ensures EndsAtom(Behind(items, tail))
  {
    hide IsAtomChar, WordText, IsWord, IsGap, GapText, Closing, IsWhite;
    ClosingEnds(tail);
    if items[0].gap != [] {
      GapEndsAtom(items[0].gap, PhraseOf(items[1..]) + tail);
    } else {
      NoPiece();
      assert Behind(items, tail) == PhraseOf(items[1..]) + tail;
      if |items| == 1 {
        assert PhraseOf(items[1..]) + tail == tail;
      } else {
        NoAtomNext(items[1..], silent && Value(items[0].word) == [], tail);
      }
    }
  }

  lemma NoAtomNext(items: seq<Item>, silent: bool, tail: Text)
    requires Chained(items, silent) && items != [] && !items[0].word.Atomic?
    ensures EndsAtom(PhraseOf(items) + tail)
  {
    hide WordText, IsWord, IsGap, GapText;
    PhraseUnfolds(items, tail);
    WordStarts(items[0].word);
    assert (PhraseOf(items) + tail)[0] == WordText(items[0].word)[0];
  }

  /** One word is read whole. */
  lemma ReadWord(w: Word, s: Text, output: Text)
    requires IsWord(w) && (w.Atomic? ==> EndsAtom(s)) && (w.Period? ==> output != [])
    ensures WordText(w) + s != [] && PhraseWord(WordText(w) + s, output) == Parsed(Value(w), |WordText(w)|)
  {
    hide IsAtomChar, IsAtom, Plain, QuotedString, Atom, Quote;
    match w
    case Period =>
    case Atomic(a) =>
      AtomRead(a, s);
      AtomStarts(a);
      assert (a + s)[0] == a[0];
    case Quotation(q) =>
      QuoteRead(q, s);
      assert (Quote(q) + s)[0] == DQUOTE;
  }

  lemma AtomStarts(a: Text)
    requires IsAtom(a)
    ensures a != [] && IsAtomChar(a[0]) && a[0] != DOT && a[0] != DQUOTE
  {
    assert a[0] in a;
  }

  /** A word of a phrase, behind a gap. */
  lemma PhraseStepOver(lead: Text, s: Text, output: Text, n: nat, value: Text)
    requires s != [] && !EndsPhrase(s) && SkipCfws(lead + s) == Parsed(lead != [], |lead|)
    requires n <= |s| && PhraseWord(s, output) == Parsed(value, n)
    ensures var space := if lead != [] && output != [] then [SPACE] else [];
      Phrase(lead + s, output, false) == Longer(|lead| + n, Phrase(s[n..], output + space + value, false))
  {
    hide SkipCfws, PhraseWord, EndsPhrase;
    assert (lead + s)[|lead|..] == s;
    assert (lead + s)[|lead| + n..] == s[n..];
  }

  lemma PhraseStops(lead: Text, tail: Text, output: Text)
    requires EndsPhrase(tail) && SkipCfws(lead + tail) == Parsed(lead != [], |lead|)
    ensures Phrase(lead + tail, output, false) == Parsed(output, |lead|)
  {
    hide SkipCfws, EndsPhrase;
    assert (lead + tail)[|lead|..] == tail;
  }

  lemma GapIsSome(ps: seq<Piece>)
    requires IsGap(ps)
    ensures ps != [] <==> GapText(ps) != []
  {
    hide IsGap, GapText;
    if ps != [] { GapStarts(ps); } else { NoPiece(); }
  }

  /** A phrase is read to its end, as what its words say. */
  lemma {:induction false} ReadWords(lead: seq<Piece>, items: seq<Item>, tail: Text, output: Text)
    requires IsGap(lead) && Chained(items, output == []) && Closing(tail)
    ensures Phrase(GapText(lead) + (PhraseOf(items) + tail), output, false)
         == Parsed(Said(items, output, lead != []), |GapText(lead)| + |PhraseOf(items)|)
    decreases |items|
  {
    hide Phrase, SkipCfws, IsGap, GapText, IsWord, WordText, Closing, Still, EndsPhrase, PhraseWord, PhraseOf, EndsAtom,
      Behind;
    RestIsStill(items, output == [], tail);
    var s := PhraseOf(items) + tail;
    SkipGap(lead, s);
    GapIsSome(lead);
    if items == [] {
      ClosingEnds(tail);
      NoWords(tail);
      PhraseStops(GapText(lead), tail, output);
    } else {
      var w := items[0].word;
      PhraseUnfolds(items, tail);
      if w.Atomic? { BehindAtom(items, output == [], tail); }
      ReadWord(w, Behind(items, tail), output);
      var space := if lead != [] && output != [] then [SPACE] else [];
      var said := output + space + Value(w);
      PhraseStepOver(GapText(lead), s, output, |WordText(w)|, Value(w));
      BehindIs(items, tail);
      assert Chained(items[1..], said == []);
      ReadWords(items[0].gap, items[1..], tail, said);
    }
  }

  lemma NoWords(tail: Text)
    ensures PhraseOf([]) == [] && [] + tail == tail
  {
  }

  lemma BehindIs(items: seq<Item>, tail: Text)
    requires items != []
    ensures Behind(items, tail) == GapText(items[0].gap) + (PhraseOf(items[1..]) + tail)
  {
  }

  // ------------------------------------------------- a phrase is no address

  /** No at sign comes next, white space and comments aside. */
  predicate NoAt(s: Text) { SkipCfws(s).Parsed? && !Starts(s[SkipCfws(s).size..], AT) }

  /** The words of a phrase are no local part that an at sign follows. */
  predicate NoLocal(s: Text) {
    var local := LocalPart(s);
    local == Failed(InvalidLocalPart) || (local.Parsed? && NoAt(s[local.size..]))
  }

  lemma NoLocalNoAddress(env: Platform, s: Text)
    requires NoLocal(s)
    ensures BareAddress(env, s) == Parsed(None, 0)
  {
    hide LocalPart, SkipCfws;
    var local := LocalPart(s);
    if local.Parsed? {
      var before := SkipCfws(s[local.size..]);
      assert s[local.size..][before.size..] == s[local.size + before.size..];
    }
  }

  /** A local part does not start with a dot, a colon or an angle bracket. */
  lemma NoSegment(s: Text)
    requires s != [] && (s[0] == DOT || s[0] == COLON || s[0] == LESS)
    ensures LocalPart(s) == Failed(InvalidLocalPart)
  {
    DotIsNoAtom();
  }

  lemma ReadSegment(w: Word, s: Text)
    requires IsWord(w) && !w.Period? && (w.Atomic? ==> EndsAtom(s))
    ensures LocalSegment(WordText(w) + s) == Parsed(Value(w), |WordText(w)|)
  {
    hide IsAtomChar, IsAtom, Plain, QuotedString, Atom, Quote;
    match w
    case Atomic(a) => SegmentRead(a, s);
    case Quotation(q) =>
      QuoteRead(q, s);
      assert (Quote(q) + s)[0] == DQUOTE;
  }

  lemma DropTwice(s: Text, a: nat, b: nat)
    requires a + b <= |s|
    ensures s[a..][b..] == s[a + b..]
  {
  }

  lemma BehindDrop(items: seq<Item>, tail: Text)
    requires items != []
    ensures var g, next := GapText(items[0].gap), PhraseOf(items[1..]) + tail;
      Behind(items, tail) == g + next && |Behind(items, tail)| == |g| + |next| && Behind(items, tail)[|g|..] == next
  {
    hide GapText, PhraseOf;
  }

  /** A dot between two words, with the gaps around it. */
  lemma DotIsBehind(t: Text, n: nat, u: Text, k: nat)
    requires SkipCfws(t).Parsed? && SkipCfws(t).size == n && n < |t| && Starts(t[n..], DOT)
    requires t[n + 1..] == u && SkipCfws(u).Parsed? && SkipCfws(u).size == k
    ensures DotBehind(t) == Parsed(true, n + 1 + k)
  {
    hide SkipCfws;
  }

  lemma NoDotNext(g: Text, s: Text)
    requires SkipCfws(g + s) == Parsed(g != [], |g|) && s != [] && s[0] != DOT && s[0] != AT
    ensures DotBehind(g + s) == Parsed(false, 0) && NoAt(g + s)
  {
    hide SkipCfws;
    assert (g + s)[|g|..] == s;
  }

  lemma LocalGoesOn(s: Text, value: Text, n: nat, k: nat, rest: Text)
    requires LocalSegment(s) == Parsed(value, n) && n <= |s| && DotBehind(s[n..]) == Parsed(true, k)
    requires n + k <= |s| && s[n..][k..] == rest && NoLocal(rest)
    ensures NoLocal(s)
  {
    hide LocalSegment, DotBehind, NoAt;
    assert s[n + k..] == rest;
    var local := LocalPart(rest);
    if local.Parsed? { assert s[n + k + local.size..] == rest[local.size..]; }
  }

  lemma LocalStops(s: Text, value: Text, n: nat)
    requires LocalSegment(s) == Parsed(value, n) && n <= |s| && DotBehind(s[n..]) == Parsed(false, 0) && NoAt(s[n..])
    ensures NoLocal(s)
  {
    hide LocalSegment, DotBehind, NoAt;
  }

  /** No phrase is taken for a bare address. */
  lemma {:induction false} PhraseHasNoLocal(items: seq<Item>, silent: bool, tail: Text)
    requires Chained(items, silent) && Closing(tail)
    ensures NoLocal(PhraseOf(items) + tail)
    decreases |items|
  {
    hide LocalPart, LocalSegment, SkipCfws, DotBehind, IsGap, GapText, IsWord, WordText, Still, PhraseOf, EndsAtom,
      Behind, NoAt;
    var s := PhraseOf(items) + tail;
    if items == [] {
      NoWords(tail);
      NoSegment(s);
    } else {
      var w, others := items[0].word, items[1..];
      PhraseUnfolds(items, tail);
      if w.Period? {
        WordStarts(w);
        assert s[0] == WordText(w)[0];
        NoSegment(s);
      } else {
        if w.Atomic? { BehindAtom(items, silent, tail); }
        ReadSegment(w, Behind(items, tail));
        BehindIs(items, tail);
        if others != [] && others[0].word.Period? {
          var k := |GapText(items[0].gap)| + 1 + |GapText(others[0].gap)|;
          DotNext(items, silent, tail);
          PhraseHasNoLocal(items[2..], false, tail);
          LocalGoesOn(s, Value(w), |WordText(w)|, k, PhraseOf(items[2..]) + tail);
        } else {
          NoDotThere(items, silent, tail);
          LocalStops(s, Value(w), |WordText(w)|);
        }
      }
    }
  }

  lemma DotStarts(items: seq<Item>, tail: Text)
    requires items != [] && items[0].word.Period?
    ensures var s := PhraseOf(items) + tail; Starts(s, DOT) && s[1..] == Behind(items, tail)
  {
    hide PhraseOf, Behind;
    PhraseUnfolds(items, tail);
    assert |WordText(items[0].word)| == 1;
    assert (PhraseOf(items) + tail)[0] == WordText(items[0].word)[0];
  }

  /** The gap behind a word is skipped to its end. */
  lemma GapBehind(items: seq<Item>, silent: bool, tail: Text)
    requires Chained(items, silent) && Closing(tail) && items != []
    ensures SkipCfws(Behind(items, tail)) == Parsed(GapText(items[0].gap) != [], |GapText(items[0].gap)|)
  {
    hide SkipCfws, IsGap, GapText, IsWord, Still, Closing, PhraseOf, EndsPhrase, Value;
    RestIsStill(items[1..], silent && Value(items[0].word) == [], tail);
    SkipGap(items[0].gap, PhraseOf(items[1..]) + tail);
    GapIsSome(items[0].gap);
  }

  /** A dot between two words, and the gaps around it. */
  lemma DotBetween(t: Text, g: nat, dot: Text, u: Text, h: nat, last: Text)
    requires SkipCfws(t).Parsed? && SkipCfws(t).size == g && t[g..] == dot && Starts(dot, DOT) && dot[1..] == u
    requires SkipCfws(u).Parsed? && SkipCfws(u).size == h && u[h..] == last
    ensures DotBehind(t) == Parsed(true, g + 1 + h) && g + 1 + h <= |t| && t[g + 1 + h..] == last
  {
    hide SkipCfws, DotBehind;
    DropTwice(t, g, 1);
    DotIsBehind(t, g, u, h);
    DropTwice(t, g + 1, h);
  }

  lemma DotNext(items: seq<Item>, silent: bool, tail: Text)
    requires Chained(items, silent) && Closing(tail) && |items| > 1 && items[1].word.Period?
    ensures var s, k := Behind(items, tail), |GapText(items[0].gap)| + 1 + |GapText(items[1].gap)|;
      DotBehind(s) == Parsed(true, k) && k <= |s| && s[k..] == PhraseOf(items[2..]) + tail
  {
    hide SkipCfws, DotBehind, IsGap, GapText, IsWord, Closing, PhraseOf, Behind, Value;
    var others := items[1..];
    GapBehind(items, silent, tail);
    BehindDrop(items, tail);
    GapBehind(others, silent && Value(items[0].word) == [], tail);
    BehindDrop(others, tail);
    DotStarts(others, tail);
    assert others[1..] == items[2..];
    DotBetween(Behind(items, tail), |GapText(items[0].gap)|, PhraseOf(others) + tail,
      Behind(others, tail), |GapText(others[0].gap)|, PhraseOf(items[2..]) + tail);
  }

  lemma NoDotThere(items: seq<Item>, silent: bool, tail: Text)
    requires Chained(items, silent) && Closing(tail) && items != [] && (|items| > 1 ==> !items[1].word.Period?)
    ensures DotBehind(Behind(items, tail)) == Parsed(false, 0) && NoAt(Behind(items, tail))
  {
    hide SkipCfws, DotBehind, IsGap, GapText, IsWord, Closing, PhraseOf, Behind, Value, NoAt, EndsPhrase;
    var others, heard := items[1..], silent && Value(items[0].word) == [];
    GapBehind(items, silent, tail);
    BehindDrop(items, tail);
    RestIsStill(others, heard, tail);
    NoDotStarts(others, heard, tail);
    NoDotNext(GapText(items[0].gap), PhraseOf(others) + tail);
  }

  lemma NoDotStarts(items: seq<Item>, silent: bool, tail: Text)
    requires Chained(items, silent) && Closing(tail) && (items != [] ==> !items[0].word.Period?)
    ensures PhraseOf(items) + tail != [] && (PhraseOf(items) + tail)[0] != DOT
  {
    hide IsAtomChar, IsGap, GapText, WordText, IsWord, Closing;
    ClosingEnds(tail);
    if items == [] {
      NoWords(tail);
    } else {
      PhraseUnfolds(items, tail);
      WordStarts(items[0].word);
      assert (PhraseOf(items) + tail)[0] == WordText(items[0].word)[0];
      if items[0].word.Atomic? { AtomIsStill(WordText(items[0].word)[0]); }
    }
  }

  // ------------------------------------------------- mailboxes named by a phrase

  lemma PhraseOpens(items: seq<Item>, tail: Text)
    requires IsPhrase(items) && Closing(tail)
    ensures var s := PhraseOf(items) + tail; Opens(s) && s[0] != LESS && s[0] != AT
  {
    hide IsAtomChar, IsGap, GapText, WordText, IsWord, Closing, PhraseOf, Behind, Still;
    RestIsStill(items, true, tail);
    PhraseUnfolds(items, tail);
    WordStarts(items[0].word);
    var s := PhraseOf(items) + tail;
    assert s[0] == WordText(items[0].word)[0];
    if items[0].word.Atomic? { AtomIsStill(s[0]); }
  }

  /** What stands in front of an address or a group is read as the phrase it was written as. */
  lemma PhraseEntity(env: Platform, items: seq<Item>, tail: Text)
    requires IsPhrase(items) && Closing(tail)
    ensures var s := PhraseOf(items) + tail;
      && ParseEntity(env, s) == NamedEntity(env, s)
      && Phrase(s, [], false) == Parsed(Said(items, [], false), |PhraseOf(items)|)
  {
    hide ParseEntity, NamedEntity, BareAddress, Phrase, Chained, PhraseOf, Closing, NoLocal, GapText, Still, IsGap;
    PhraseOpens(items, tail);
    PhraseHasNoLocal(items, true, tail);
    NoLocalNoAddress(env, PhraseOf(items) + tail);
    EntityOf(env, PhraseOf(items) + tail);
    NoPiece();
    ReadWords([], items, tail, []);
    assert [] + (PhraseOf(items) + tail) == PhraseOf(items) + tail;
  }

  lemma BracketCloses(m: Mailbox, tail: Text)
    ensures Closing(Bracketed(m) + tail)
  {
  }

  /** A mailbox with any phrase for its display name: the name is what the phrase says, decoded. */
  lemma PhraseAddress(env: Platform, items: seq<Item>, m: Mailbox, tail: Text)
    requires Idna.Sane(env.tables) && Valid(m) && Readable(m.localPart) && IsPhrase(items)
    ensures ParseEntity(env, PhraseOf(items) + (Bracketed(m) + tail))
         == Named(env, Bare(m), Said(items, [], false), |PhraseOf(items)| + |Bracketed(m)|)
  {
    hide *;
    var angle := Bracketed(m) + tail;
    BracketCloses(m, tail);
    PhraseEntity(env, items, angle);
    DropFront(PhraseOf(items), angle);
    ReadNamed(env, m, PhraseOf(items) + angle, |PhraseOf(items)|, Said(items, [], false), tail);
  }

  lemma DropFront(a: Text, b: Text)
    ensures |a| <= |a + b| && (a + b)[|a|..] == b
  {
  }

  // -------------------------------------------------------------- group members

  /** Reading gives mailboxes one for one, after `n` characters, and the very same ones exactly if `good`. */
  predicate Gives(r: Parsed<seq<Mailbox>>, ms: seq<Mailbox>, n: nat, good: bool) {
    match r
    case Failed(_) => !good
    case Parsed(v, size) => size == n && |v| == |ms| && (v == ms <==> good)
  }

  /** A comma and the gap behind it separate two entries. */
  lemma SeparatorRead(gap: seq<Piece>, rest: Text, inGroup: bool)
    requires IsGap(gap) && Opens(rest)
    ensures var s := [COMMA] + (GapText(gap) + rest);
      Separator(s, inGroup) == Parsed((), 1 + |GapText(gap)|) && s[1 + |GapText(gap)|..] == rest
  {
    hide SkipCfws, IsGap, GapText, Still;
    SkipGap(gap, rest);
    var s := [COMMA] + (GapText(gap) + rest);
    assert s[1..] == GapText(gap) + rest;
    assert s[1 + |GapText(gap)|..] == s[1..][|GapText(gap)|..] == rest;
  }

  lemma CommaThen(rest: Text, inGroup: bool)
    requires Opens(rest)
    ensures Separator([COMMA, SPACE] + rest, inGroup) == Parsed((), 2)
  {
    hide Separator, Opens;
    SpaceIsGap();
    SeparatorRead([Blank(SPACE)], rest, inGroup);
    assert [COMMA, SPACE] + rest == [COMMA] + ([SPACE] + rest);
  }

  lemma SpaceIsGap()
    ensures IsGap([Blank(SPACE)]) && GapText([Blank(SPACE)]) == [SPACE]
  {
    assert GapText([Blank(SPACE)]) == [SPACE] + GapText([]);
  }

  lemma MemberIs(env: Platform, s: Text, m: Mailbox, n: nat)
    requires Reads(env, s, m, n) && n <= |s| && Still(s[n..])
    ensures Starts(s[n..], SEMICOLON) ==> Member(env, s) == Parsed((m, false), n + 1)
    ensures Separator(s[n..], true) == Parsed((), 2) ==> Member(env, s) == Parsed((m, true), n + 2)
  {
    hide ParseEntity, SkipCfws, Still, Separator;
    NothingToSkip(s[n..]);
    SeparatorStarts(s[n..]);
  }

  lemma SeparatorStarts(s: Text)
    ensures Separator(s, true).Parsed? ==> Starts(s, COMMA)
  {
    hide SkipCfws;
  }

  lemma SemicolonIsStill(behind: Text)
    ensures Still([SEMICOLON] + behind) && Starts([SEMICOLON] + behind, SEMICOLON) && Follows([SEMICOLON] + behind)
  {
  }

  lemma CommaFollows(rest: Text)
    ensures Still([COMMA, SPACE] + rest) && Follows([COMMA, SPACE] + rest)
  {
  }

  lemma LastMember(env: Platform, s: Text, m: Mailbox, n: nat, behind: Text)
    requires Reads(env, s, m, n) && n <= |s| && s[n..] == [SEMICOLON] + behind
    ensures GroupMembers(env, s) == Parsed([m], n + 1)
  {
    hide Reads, Member, Still;
    SemicolonIsStill(behind);
    MemberIs(env, s, m, n);
  }

  lemma MemberBefore(env: Platform, s: Text, m: Mailbox, n: nat, rest: Text)
    requires Reads(env, s, m, n) && n <= |s| && s[n..] == [COMMA, SPACE] + rest && Opens(rest)
    ensures GroupMembers(env, s) == Counted(n + 2, [m], GroupMembers(env, rest))
  {
    hide Reads, Member, Still, Separator, Opens, Counted;
    CommaFollows(rest);
    CommaThen(rest, true);
    MemberIs(env, s, m, n);
    BehindComma(s, n, rest);
  }

  lemma NoMember(env: Platform, s: Text, m: Mailbox, n: nat)
    requires ParseEntity(env, s).Failed?
    ensures GroupMembers(env, s).Failed? && !Reads(env, s, m, n)
  {
    hide ParseEntity, SkipCfws, Separator;
  }

  lemma CountedGives(m': Mailbox, n: nat, r: Parsed<seq<Mailbox>>, ms: seq<Mailbox>, k: nat, first: bool, good: bool)
    requires ms != [] && Gives(r, ms[1..], k, good) && (m' == ms[0] <==> first)
    ensures Gives(Counted(n, [m'], r), ms, n + k, first && good)
  {
    if r.Parsed? {
      var v := [m'] + r.value;
      assert v[1..] == r.value && v[0] == m';
      assert ms == [ms[0]] + ms[1..];
    }
  }

  /** The header text of some mailboxes. */
  function ListText(ms: seq<Mailbox>): Text {
    var text := FormatAddressList(ms);
    if text.Ok? then text.value else []
  }

  lemma ListTextFirst(ms: seq<Mailbox>)
    requires ms != [] && FormatAddress(ms[0]).Ok? && (|ms| > 1 ==> FormatAddressList(ms[1..]).Ok?)
    ensures FormatAddressList(ms).Ok?
    ensures ListText(ms)
         == FormatAddress(ms[0]).value + if |ms| == 1 then [] else [COMMA, SPACE] + ListText(ms[1..])
  {
    hide FormatAddress;
    FormatFirst(ms);
    if |ms| == 1 { assert FormatAddress(ms[0]).value + [] == FormatAddress(ms[0]).value; }
  }

  lemma {:induction false} ReadMembers(env: Platform, ms: seq<Mailbox>, behind: Text)
    requires Idna.Sane(env.tables) && Writable(ms) && ms != []
    ensures FormatAddressList(ms).Ok?
    ensures var s := ListText(ms) + ([SEMICOLON] + behind);
      Opens(s) && Gives(GroupMembers(env, s), ms, |ListText(ms)| + 1, AllTravel(env, ms))
    decreases |ms|
  {
    hide Idna.Sane, Valid, Readable, ParseEntity, GroupMembers, FormatAddress, FormatAddressList, Travels, Still, Reads,
      Opens, AllTravel, Gives, Counted, ListText, Follows;
    var m, others := ms[0], ms[1..];
    assert m in ms && forall x | x in others :: x in ms;
    var end := [SEMICOLON] + behind;
    var tail: Text := end;
    if others == [] {
      SemicolonIsStill(behind);
    } else {
      ReadMembers(env, others, behind);
      tail := [COMMA, SPACE] + (ListText(others) + end);
      CommaFollows(ListText(others) + end);
    }
    ReadEntry(env, m, tail);
    var w := FormatAddress(m).value;
    ListTextFirst(ms);
    MembersText(w, ListText(others), end, |ms| == 1);
    FirstMember(env, ms, w, tail, behind);
  }

  lemma MembersText(w: Text, others: Text, end: Text, last: bool)
    ensures (w + if last then [] else [COMMA, SPACE] + others) + end
         == w + if last then end else [COMMA, SPACE] + (others + end)
  {
  }

  /** The first member, whose name arrives or not, in front of the others. */
  lemma FirstMember(env: Platform, ms: seq<Mailbox>, w: Text, tail: Text, behind: Text)
    requires ms != [] && (ms[0].displayName.Some? ==> ms[0].displayName.value != [])
    requires Reads(env, w + tail, ms[0], |w|) <==> Travels(env, ms[0])
    requires ParseEntity(env, w + tail).Parsed? ==>
               exists m' | (m' == ms[0] <==> Travels(env, ms[0])) :: Reads(env, w + tail, m', |w|)
    requires var end := [SEMICOLON] + behind; if |ms| == 1 then tail == end else
      var rest := ListText(ms[1..]) + end;
      && tail == [COMMA, SPACE] + rest && Opens(rest)
      && Gives(GroupMembers(env, rest), ms[1..], |ListText(ms[1..])| + 1, AllTravel(env, ms[1..]))
    ensures Gives(GroupMembers(env, w + tail), ms,
      |w| + (if |ms| == 1 then 0 else 2 + |ListText(ms[1..])|) + 1, AllTravel(env, ms))
  {
    hide ParseEntity, GroupMembers, Travels, Opens, AllTravel, Counted, ListText, Reads;
    var m, s := ms[0], w + tail;
    AllTravelSplit(env, ms);
    if ParseEntity(env, s).Failed? {
      NoMember(env, s, m, |w|);
    } else {
      var m' :| (m' == m <==> Travels(env, m)) && Reads(env, s, m', |w|);
      DropFront(w, tail);
      if |ms| == 1 {
        LastMember(env, s, m', |w|, behind);
        NoneLeft(env, ms);
        assert ms == [m];
        assert [m'][0] == m' && ms[0] == m;
      } else {
        var rest := ListText(ms[1..]) + ([SEMICOLON] + behind);
        MemberBefore(env, s, m', |w|, rest);
        CountedGives(m', |w| + 2, GroupMembers(env, rest), ms, |ListText(ms[1..])| + 1, Travels(env, m),
          AllTravel(env, ms[1..]));
      }
    }
  }

  lemma NoneLeft(env: Platform, ms: seq<Mailbox>)
    requires |ms| == 1
    ensures AllTravel(env, ms[1..])
  {
  }

  // --------------------------------------------------------------------- groups

  /** A group from its colon on. */
  function GroupText(gap: seq<Piece>, ms: seq<Mailbox>, behind: Text): Text {
    [COLON] + (GapText(gap) + (ListText(ms) + ([SEMICOLON] + behind)))
  }

  lemma NoMembersText()
    ensures ListText([]) == []
  {
  }

  lemma GroupTextParts(gap: seq<Piece>, ms: seq<Mailbox>, behind: Text)
    ensures var s, inner := GroupText(gap, ms, behind), ListText(ms) + ([SEMICOLON] + behind);
      && Starts(s, COLON) && s[1..] == GapText(gap) + inner
      && 1 + |GapText(gap)| <= |s| && s[1 + |GapText(gap)|..] == inner
  {
    hide GapText, ListText;
    var s, inner := GroupText(gap, ms, behind), ListText(ms) + ([SEMICOLON] + behind);
    assert s[1..] == GapText(gap) + inner;
    DropFront(GapText(gap), inner);
    assert s[1 + |GapText(gap)|..] == s[1..][|GapText(gap)|..];
  }

  lemma GroupBody(env: Platform, s: Text, n: nat)
    requires Starts(s, COLON) && SkipCfws(s[1..]).Parsed? && SkipCfws(s[1..]).size == n && 1 + n <= |s|
    requires var inner := s[1 + n..]; inner != [] && inner[0] != COMMA
    ensures ParseGroup(env, s)
         == if Starts(s[1 + n..], SEMICOLON) then Parsed([], 1 + n + 1)
            else Longer(1 + n, GroupMembers(env, s[1 + n..]))
  {
    hide SkipCfws, GroupMembers;
  }

  lemma SemicolonIsNoComma(behind: Text)
    ensures [] + ([SEMICOLON] + behind) == [SEMICOLON] + behind
    ensures ([SEMICOLON] + behind)[0] != COMMA
  {
  }

  lemma LongerGives(n: nat, r: Parsed<seq<Mailbox>>, ms: seq<Mailbox>, k: nat, good: bool)
    requires Gives(r, ms, k, good)
    ensures Gives(Longer(n, r), ms, n + k, good)
  {
  }

  lemma NobodyTravels(env: Platform, n: nat)
    ensures AllTravel(env, []) && Gives(Parsed([], n), [], n, AllTravel(env, []))
  {
  }

  /** What stands behind the colon: the members and the semicolon. */
  lemma ReadInner(env: Platform, ms: seq<Mailbox>, behind: Text, n: nat)
    requires Idna.Sane(env.tables) && Writable(ms)
    ensures var inner := ListText(ms) + ([SEMICOLON] + behind);
      && inner != [] && inner[0] != COMMA && Still(inner)
      && Gives(if Starts(inner, SEMICOLON) then Parsed([], n + 1) else Longer(n, GroupMembers(env, inner)), ms,
           n + |ListText(ms)| + 1, AllTravel(env, ms))
  {
    hide Idna.Sane, Writable, ListText, GroupMembers, AllTravel, Still, Gives, Longer;
    var inner := ListText(ms) + ([SEMICOLON] + behind);
    if ms == [] {
      NoMembersText();
      SemicolonIsStill(behind);
      SemicolonIsNoComma(behind);
      NobodyTravels(env, n + 1);
    } else {
      ReadMembers(env, ms, behind);
      LongerGives(n, GroupMembers(env, inner), ms, |ListText(ms)| + 1, AllTravel(env, ms));
    }
  }

  /** A group gives its members, in order; with nothing between colon and semicolon it gives nobody. */
  lemma ReadGroup(env: Platform, gap: seq<Piece>, ms: seq<Mailbox>, behind: Text)
    requires Idna.Sane(env.tables) && IsGap(gap) && Writable(ms)
    ensures Starts(GroupText(gap, ms, behind), COLON)
    ensures Gives(ParseGroup(env, GroupText(gap, ms, behind)), ms,
      1 + |GapText(gap)| + |ListText(ms)| + 1, AllTravel(env, ms))
  {
    hide Idna.Sane, Writable, IsGap, GapText, ListText, SkipCfws, GroupMembers, ParseGroup, AllTravel, Still, Gives,
      GroupText, Longer, Starts;
    GroupTextParts(gap, ms, behind);
    ReadInner(env, ms, behind, 1 + |GapText(gap)|);
    SkipGap(gap, ListText(ms) + ([SEMICOLON] + behind));
    GroupBody(env, GroupText(gap, ms, behind), |GapText(gap)|);
  }

  // --------------------------------------------------------------------- entries

  /** One entry of an address list, with the white space in front of it. */
  datatype Entry =
    | Single(lead: seq<Piece>, mailbox: Mailbox)
    | Group(lead: seq<Piece>, name: seq<Item>, gap: seq<Piece>, members: seq<Mailbox>)

  predicate IsEntry(e: Entry) {
    && IsGap(e.lead)
    && match e
       case Single(_, m) => Valid(m) && Readable(m.localPart)
       case Group(_, name, gap, members) => IsPhrase(name) && IsGap(gap) && Writable(members)
  }

  /** An entry as it is written: the mailbox, or the name, a colon, the members and a semicolon. */
  function EntryText(e: Entry): Text {
    match e
    case Single(_, m) => ListText([m])
    case Group(_, name, gap, members) => PhraseOf(name) + ([COLON] + (GapText(gap) + (ListText(members) + [SEMICOLON])))
  }

  /** The mailboxes an entry stands for. */
  function MailboxesOf(e: Entry): seq<Mailbox> { if e.Single? then [e.mailbox] else e.members }

  lemma EntityGives(env: Platform, s: Text, m: Mailbox, n: nat, good: bool)
    requires Reads(env, s, m, n) <==> good
    requires ParseEntity(env, s).Parsed? ==> exists m' | (m' == m <==> good) :: Reads(env, s, m', n)
    ensures Gives(ParseEntry(env, s), [m], n, good)
  {
    hide ParseEntity, ParseGroup;
    if ParseEntity(env, s).Parsed? {
      var m' :| (m' == m <==> good) && Reads(env, s, m', n);
      assert [m'][0] == m' && [m][0] == m;
    }
  }

  lemma OneTravels(env: Platform, m: Mailbox)
    requires m.displayName.Some? ==> m.displayName.value != []
    ensures AllTravel(env, [m]) <==> Travels(env, m)
  {
    hide Travels;
    assert m in [m];
  }

  lemma OneText(m: Mailbox)
    requires FormatAddress(m).Ok?
    ensures ListText([m]) == FormatAddress(m).value
  {
    hide FormatAddress;
  }

  lemma GroupFits(e: Entry, tail: Text)
    requires e.Group?
    ensures EntryText(e) + tail == PhraseOf(e.name) + GroupText(e.gap, e.members, tail)
    ensures |EntryText(e)| == |PhraseOf(e.name)| + (1 + |GapText(e.gap)| + |ListText(e.members)| + 1)
  {
    hide PhraseOf, GapText, ListText;
    var p, g, l := PhraseOf(e.name), GapText(e.gap), ListText(e.members);
    Nested(p, [COLON], g, l, [SEMICOLON], tail);
  }

  lemma Nested(p: Text, c: Text, g: Text, l: Text, d: Text, tail: Text)
    ensures p + (c + (g + (l + d))) + tail == p + (c + (g + (l + (d + tail))))
  {
    assert l + d + tail == l + (d + tail);
    assert g + (l + d) + tail == g + (l + (d + tail));
    assert c + (g + (l + d)) + tail == c + (g + (l + (d + tail)));
  }

  lemma ColonCloses(s: Text)
    requires Starts(s, COLON)
    ensures Closing(s) && SkipCfws(s) == Parsed(false, 0)
  {
    hide SkipCfws;
    NothingToSkip(s);
  }

  lemma ColonNext(env: Platform, s: Text, n: nat, raw: Text)
    requires Phrase(s, [], false) == Parsed(raw, n) && n <= |s|
    requires Starts(s[n..], COLON) && SkipCfws(s[n..]) == Parsed(false, 0)
    ensures NamedEntity(env, s) == Parsed(GroupColon, n)
  {
    hide Phrase, SkipCfws, AngleAddr, FinalizeDisplayName;
    assert n + 0 == n;
  }

  lemma GroupEntry(env: Platform, s: Text, n: nat, raw: Text)
    requires ParseEntity(env, s) == NamedEntity(env, s) && Phrase(s, [], false) == Parsed(raw, n) && n <= |s|
    requires Starts(s[n..], COLON)
    ensures ParseEntry(env, s) == Longer(n, ParseGroup(env, s[n..]))
  {
    hide Phrase, ParseEntity, NamedEntity, ParseGroup, SkipCfws, Longer;
    ColonCloses(s[n..]);
    ColonNext(env, s, n, raw);
  }

  /** An entry is read to its end, in front of the end of the list or of a comma. */
  lemma ReadEntryText(env: Platform, e: Entry, tail: Text)
    requires Idna.Sane(env.tables) && IsEntry(e) && (tail == [] || tail[0] == COMMA)
    ensures Opens(EntryText(e) + tail)
    ensures Gives(ParseEntry(env, EntryText(e) + tail), MailboxesOf(e), |EntryText(e)|, AllTravel(env, MailboxesOf(e)))
  {
    hide Idna.Sane, IsGap, GapText, ListText, PhraseOf, ParseEntity, NamedEntity, ParseEntry, ParseGroup, AllTravel,
      Travels, Reads, Valid, Readable, Writable, Gives, Opens, FormatAddress, Phrase, Chained, GroupText, IsPhrase,
      Longer;
    match e
    case Single(_, m) =>
      ReadEntry(env, m, tail);
      OneTravels(env, m);
      OneText(m);
      EntityGives(env, EntryText(e) + tail, m, |EntryText(e)|, Travels(env, m));
    case Group(_, name, gap, members) =>
      var behind := GroupText(gap, members, tail);
      ReadGroup(env, gap, members, tail);
      ColonCloses(behind);
      PhraseEntity(env, name, behind);
      PhraseOpens(name, behind);
      GroupFits(e, tail);
      DropFront(PhraseOf(name), behind);
      GroupEntry(env, PhraseOf(name) + behind, |PhraseOf(name)|, Said(name, [], false));
      LongerGives(|PhraseOf(name)|, ParseGroup(env, behind), members,
        1 + |GapText(gap)| + |ListText(members)| + 1, AllTravel(env, members));
  }

  // ------------------------------------------------------------------ whole lists

  /** The entries from the first on, with a comma before each further one. */
  function EntriesText(es: seq<Entry>): Text
    requires es != []
  {
    EntryText(es[0]) + if |es| == 1 then [] else [COMMA] + (GapText(es[1].lead) + EntriesText(es[1..]))
  }

  /** An address list as it stands in a header. */
  function HeaderText(es: seq<Entry>): Text { if es == [] then [] else GapText(es[0].lead) + EntriesText(es) }

  function AllMailboxes(es: seq<Entry>): seq<Mailbox> {
    if es == [] then [] else MailboxesOf(es[0]) + AllMailboxes(es[1..])
  }

  predicate AreEntries(es: seq<Entry>) { forall e | e in es :: IsEntry(e) }

  /** As `Gives`, for a whole list. */
  predicate Yields(r: Result<seq<Mailbox>, Kind>, ms: seq<Mailbox>, good: bool) {
    match r
    case Err(_) => !good
    case Ok(v) => |v| == |ms| && (v == ms <==> good)
  }

  lemma LastInList(env: Platform, s: Text, ms: seq<Mailbox>, n: nat, good: bool)
    requires Gives(ParseEntry(env, s), ms, n, good) && n == |s|
    ensures Yields(ParseEntries(env, s), ms, good)
  {
    hide ParseEntry, ParseEntries, SkipCfws, Still, Separator;
    StillNothing();
    NothingToSkip([]);
    EntriesStep(env, s);
    assert s[n..] == [];
    hide Gives;
    LastIs(env, s);
  }

  lemma LastIs(env: Platform, s: Text)
    requires SkipCfws([]) == Parsed(false, 0)
    requires ParseEntry(env, s).Parsed? ==> ParseEntry(env, s).size == |s|
    ensures ListEntry(env, s)
         == if ParseEntry(env, s).Failed? then Failed(ParseEntry(env, s).kind)
            else Parsed((ParseEntry(env, s).value, false), |s|)
  {
    hide ParseEntry, SkipCfws, Separator;
    assert s[|s|..] == [];
  }

  lemma BeforeComma(env: Platform, s: Text, n: nat, k: nat)
    requires ParseEntry(env, s).Parsed? ==> ParseEntry(env, s).size == n
    requires n < |s| && Still(s[n..]) && Separator(s[n..], false) == Parsed((), k) && n + k <= |s|
    ensures ListEntry(env, s)
         == if ParseEntry(env, s).Failed? then Failed(ParseEntry(env, s).kind)
            else Parsed((ParseEntry(env, s).value, true), n + k)
  {
    hide ParseEntry, SkipCfws, Separator, Still;
    NothingToSkip(s[n..]);
  }

  /** First what one entry gives, then what the others do. */
  lemma GivesThenYields(first: Parsed<seq<Mailbox>>, rest: Result<seq<Mailbox>, Kind>, a: seq<Mailbox>, n: nat, x: bool,
                        b: seq<Mailbox>, y: bool)
    requires Gives(first, a, n, x) && Yields(rest, b, y)
    ensures first.Failed? ==> !(x && y)
    ensures first.Parsed? ==> Yields(AppendedTo(first.value, rest), a + b, x && y)
  {
    if first.Parsed? && rest.Ok? {
      var v := first.value + rest.value;
      assert v[..|a|] == first.value && v[|a|..] == rest.value;
      assert (a + b)[..|a|] == a && (a + b)[|a|..] == b;
    }
  }

  lemma TravelTogether(env: Platform, a: seq<Mailbox>, b: seq<Mailbox>)
    ensures AllTravel(env, a + b) <==> AllTravel(env, a) && AllTravel(env, b)
  {
    hide Travels;
    assert forall m :: m in a + b <==> m in a || m in b;
  }

  lemma OneEntryText(es: seq<Entry>)
    requires |es| == 1
    ensures EntriesText(es) == EntryText(es[0]) + [] == EntryText(es[0]) && AllMailboxes(es) == MailboxesOf(es[0])
  {
    hide EntryText, MailboxesOf;
    assert MailboxesOf(es[0]) + [] == MailboxesOf(es[0]);
  }

  /** One entry, a comma, and the others. */
  lemma CommaYields(env: Platform, s: Text, n: nat, k: nat, rest: Text, a: seq<Mailbox>, x: bool, b: seq<Mailbox>,
                    y: bool)
    requires Gives(ParseEntry(env, s), a, n, x) && Yields(ParseEntries(env, rest), b, y)
    requires n < |s| && Still(s[n..]) && Separator(s[n..], false) == Parsed((), k)
    requires n + k <= |s| && s[n + k..] == rest
    ensures Yields(ParseEntries(env, s), a + b, x && y)
  {
    hide ParseEntry, ParseEntries, Separator, Still, AppendedTo, Yields, ListEntry;
    BeforeComma(env, s, n, k);
    EntriesStep(env, s);
    GivesThenYields(ParseEntry(env, s), ParseEntries(env, rest), a, n, x, b, y);
    FailureYields(ParseEntries(env, s), a + b);
  }

  lemma FirstInList(env: Platform, es: seq<Entry>)
    requires |es| > 1 && AreEntries(es) && Opens(EntriesText(es[1..]))
    requires Gives(ParseEntry(env, EntriesText(es)), MailboxesOf(es[0]), |EntryText(es[0])|,
               AllTravel(env, MailboxesOf(es[0])))
    requires Yields(ParseEntries(env, EntriesText(es[1..])), AllMailboxes(es[1..]),
               AllTravel(env, AllMailboxes(es[1..])))
    ensures Yields(ParseEntries(env, EntriesText(es)), AllMailboxes(es), AllTravel(env, AllMailboxes(es)))
  {
    hide ParseEntry, ParseEntries, Separator, Still, Opens, EntriesText, EntryText, GapText, MailboxesOf, AllTravel,
      IsGap, Gives, Yields;
    var s, n, rest, gap := EntriesText(es), |EntryText(es[0])|, EntriesText(es[1..]), es[1].lead;
    TextBehind(es);
    assert es[1] in es;
    SeparatorRead(gap, rest, false);
    CommaIsStill(GapText(gap) + rest);
    DropTwice(s, n, 1 + |GapText(gap)|);
    CommaYields(env, s, n, 1 + |GapText(gap)|, rest, MailboxesOf(es[0]), AllTravel(env, MailboxesOf(es[0])),
      AllMailboxes(es[1..]), AllTravel(env, AllMailboxes(es[1..])));
    TravelTogether(env, MailboxesOf(es[0]), AllMailboxes(es[1..]));
  }

  lemma FailureYields(r: Result<seq<Mailbox>, Kind>, ms: seq<Mailbox>)
    ensures r.Err? ==> Yields(r, ms, false)
  {
  }

  lemma CommaIsStill(s: Text)
    ensures Still([COMMA] + s)
  {
  }

  lemma TextBehind(es: seq<Entry>)
    requires |es| > 1
    ensures var s, n := EntriesText(es), |EntryText(es[0])|;
      && s == EntryText(es[0]) + ([COMMA] + (GapText(es[1].lead) + EntriesText(es[1..])))
      && n < |s| && s[n..] == [COMMA] + (GapText(es[1].lead) + EntriesText(es[1..]))
      && n + (1 + |GapText(es[1].lead)|) <= |s|
  {
    hide EntryText, GapText;
    DropFront(EntryText(es[0]), [COMMA] + (GapText(es[1].lead) + EntriesText(es[1..])));
  }

  lemma {:induction false} ReadEntries(env: Platform, es: seq<Entry>)
    requires Idna.Sane(env.tables) && AreEntries(es) && es != []
    ensures Opens(EntriesText(es))
    ensures Yields(ParseEntries(env, EntriesText(es)), AllMailboxes(es), AllTravel(env, AllMailboxes(es)))
    decreases |es|
  {
    hide Idna.Sane, ParseEntry, ParseEntries, Opens, EntryText, GapText, MailboxesOf, AllTravel, Gives, Yields, IsEntry,
      EntriesText, AllMailboxes;
    assert es[0] in es && forall e | e in es[1..] :: e in es;
    if |es| == 1 {
      ReadEntryText(env, es[0], []);
      OneEntryText(es);
      LastInList(env, EntriesText(es), MailboxesOf(es[0]), |EntryText(es[0])|, AllTravel(env, MailboxesOf(es[0])));
    } else {
      ReadEntries(env, es[1..]);
      TextBehind(es);
      ReadEntryText(env, es[0], [COMMA] + (GapText(es[1].lead) + EntriesText(es[1..])));
      FirstInList(env, es);
    }
  }

  /**
   * Mailboxes and groups, written as one list with white space and comments
   * between them, are read as the mailboxes they stand for, in order, if and
   * only if every display name arrives. The names of the groups do not matter.
   */
  lemma GroupedRoundTrip(env: Platform, es: seq<Entry>)
    requires Idna.Sane(env.tables) && AreEntries(es)
    ensures ParseList(env, HeaderText(es)) == Ok(AllMailboxes(es)) <==> AllTravel(env, AllMailboxes(es))
  {
    hide Idna.Sane, IsEntry, ParseEntries, SkipCfws, Still, AllTravel, EntriesText, GapText, IsGap, AllMailboxes;
    if es == [] {
      StillNothing();
      NothingToSkip([]);
      NobodyTravels(env, 0);
      NobodyListed();
    } else {
      ReadEntries(env, es);
      EntryLead(es);
      SkipGap(es[0].lead, EntriesText(es));
      ListStarts(env, GapText(es[0].lead), EntriesText(es));
    }
  }

  lemma NobodyListed()
    ensures AllMailboxes([]) == []
  {
  }

  lemma EntryLead(es: seq<Entry>)
    requires es != [] && AreEntries(es)
    ensures IsGap(es[0].lead)
  {
    assert es[0] in es;
  }

  lemma ListStarts(env: Platform, gap: Text, s: Text)
    requires Opens(s) && SkipCfws(gap + s).Parsed? && SkipCfws(gap + s).size == |gap|
    ensures ParseList(env, gap + s) == ParseEntries(env, s)
  {
    hide ParseEntries, SkipCfws;
    DropFront(gap, s);
  }

  /** One group: its members if their names arrive, and nobody if it is empty. */
  lemma GroupRoundTrip(env: Platform, name: seq<Item>, gap: seq<Piece>, ms: seq<Mailbox>)
    requires Idna.Sane(env.tables) && IsPhrase(name) && IsGap(gap) && Writable(ms)
    ensures var s := PhraseOf(name) + ([COLON] + (GapText(gap) + (ListText(ms) + [SEMICOLON])));
      ParseList(env, s) == Ok(ms) <==> AllTravel(env, ms)
  {
    hide Idna.Sane, IsPhrase, IsGap, Writable, ParseList, AllTravel, PhraseOf, GapText, ListText;
    NoPiece();
    var e := Group([], name, gap, ms);
    OneEntryText([e]);
    assert AreEntries([e]);
    GroupedRoundTrip(env, [e]);
    assert HeaderText([e]) == [] + EntryText(e) == EntryText(e);
  }

  // -------------------------------------------------------------- empty elements

  /** Commas with nothing but white space and comments behind each. */
  function CommasText(gaps: seq<seq<Piece>>): Text {
    if gaps == [] then [] else [COMMA] + (GapText(gaps[0]) + CommasText(gaps[1..]))
  }

  predicate AreGaps(gaps: seq<seq<Piece>>) { forall g | g in gaps :: IsGap(g) }

  lemma CommaStep(t: Text, n: nat, s: Text)
    requires Starts(t, COMMA) && SkipCfws(t[1..]).Parsed? && SkipCfws(t[1..]).size == n
    requires 1 + n <= |t| && t[1 + n..] == s
    ensures var rest := SkipCommas(s);
      SkipCommas(t) == if rest.Failed? then rest else Parsed(rest.value + 1, 1 + n + rest.size)
  {
    hide SkipCfws;
  }

  lemma CommaSkipped(gap: Text, s: Text)
    requires SkipCfws(gap + s).Parsed? && SkipCfws(gap + s).size == |gap|
    ensures var rest := SkipCommas(s);
      SkipCommas([COMMA] + (gap + s))
      == if rest.Failed? then rest else Parsed(rest.value + 1, 1 + |gap| + rest.size)
  {
    hide SkipCfws, SkipCommas;
    var t := [COMMA] + (gap + s);
    assert t[1..] == gap + s;
    DropFront(gap, s);
    DropTwice(t, 1, |gap|);
    CommaStep(t, |gap|, s);
  }

  lemma CommasUnfold(gaps: seq<seq<Piece>>, s: Text)
    requires gaps != []
    ensures var g, rest := GapText(gaps[0]), CommasText(gaps[1..]);
      CommasText(gaps) + s == [COMMA] + (g + (rest + s)) && |CommasText(gaps)| == 1 + |g| + |rest|
  {
    hide GapText;
  }

  lemma CommasStill(gaps: seq<seq<Piece>>, s: Text)
    requires Still(s)
    ensures Still(CommasText(gaps) + s)
  {
    hide GapText;
    if gaps == [] {
      assert CommasText(gaps) + s == s;
    } else {
      assert (CommasText(gaps) + s)[0] == COMMA;
    }
  }

  /** Commas are counted and skipped, up to what is neither one nor white space. */
  lemma {:induction false} ReadCommas(gaps: seq<seq<Piece>>, s: Text)
    requires AreGaps(gaps) && Still(s) && !Starts(s, COMMA)
    ensures SkipCommas(CommasText(gaps) + s) == Parsed(|gaps|, |CommasText(gaps)|)
    decreases |gaps|
  {
    hide SkipCfws, SkipCommas, GapText, IsGap, Still, CommasText;
    if gaps == [] {
      NoComma(s);
      NoCommasText(s);
    } else {
      assert gaps[0] in gaps && forall g | g in gaps[1..] :: g in gaps;
      ReadCommas(gaps[1..], s);
      CommasStill(gaps[1..], s);
      SkipGap(gaps[0], CommasText(gaps[1..]) + s);
      CommaSkipped(GapText(gaps[0]), CommasText(gaps[1..]) + s);
      CommasUnfold(gaps, s);
    }
  }

  lemma NoCommasText(s: Text)
    ensures CommasText([]) == [] && [] + s == s
  {
  }

  lemma NoComma(s: Text)
    requires !Starts(s, COMMA)
    ensures SkipCommas(s) == Parsed(0, 0)
  {
  }

  /** Commas in front of a list do not matter, but a list of nothing else is refused. */
  lemma LeadingCommas(env: Platform, gaps: seq<seq<Piece>>, s: Text)
    requires AreGaps(gaps) && (s == [] || Opens(s))
    ensures ParseList(env, CommasText(gaps) + s)
         == if s != [] then ParseEntries(env, s) else if gaps == [] then Ok([]) else Err(InvalidAddress)
  {
    hide SkipCfws, SkipCommas, CommasText, IsGap, ParseEntries;
    var t := CommasText(gaps) + s;
    CommasStill(gaps, s);
    NothingToSkip(t);
    ReadCommas(gaps, s);
    DropFront(CommasText(gaps), s);
    assert t[0..] == t;
  }

  /** Commas behind the colon of a group are allowed in front of its semicolon only. */
  lemma GroupCommas(env: Platform, gap: seq<Piece>, gaps: seq<seq<Piece>>, s: Text)
    requires IsGap(gap) && AreGaps(gaps) && gaps != [] && (Starts(s, SEMICOLON) || Opens(s))
    ensures ParseGroup(env, [COLON] + (GapText(gap) + (CommasText(gaps) + s)))
         == if Starts(s, SEMICOLON) then Parsed([], 1 + |GapText(gap)| + |CommasText(gaps)| + 1)
            else Failed(InvalidAddress)
  {
    hide SkipCfws, SkipCommas, CommasText, GapText, IsGap, GroupMembers;
    var inner := CommasText(gaps) + s;
    var t := [COLON] + (GapText(gap) + inner);
    CommasStill(gaps, s);
    SkipGap(gap, inner);
    ReadCommas(gaps, s);
    assert t[1..] == GapText(gap) + inner;
    DropFront(GapText(gap), inner);
    DropTwice(t, 1, |GapText(gap)|);
    DropFront(CommasText(gaps), s);
    DropTwice(t, 1 + |GapText(gap)|, |CommasText(gaps)|);
  }

  /** A comma with nothing behind it, or with another comma, ends in an error wherever it stands. */
  lemma EmptyElement(env: Platform, e: Entry, gap: seq<Piece>, s: Text)
    requires Idna.Sane(env.tables) && IsEntry(e) && IsGap(gap) && (s == [] || s[0] == COMMA)
    ensures ParseEntries(env, EntryText(e) + ([COMMA] + (GapText(gap) + s))).Err?
  {
    hide Idna.Sane, IsEntry, IsGap, GapText, EntryText, ParseEntry, ParseEntries, AllTravel, Separator, Still, Opens,
      MailboxesOf;
    var tail := [COMMA] + (GapText(gap) + s);
    ReadEntryText(env, e, tail);
    DropFront(EntryText(e), tail);
    CommaIsStill(GapText(gap) + s);
    EmptyBehind(gap, s);
    EntriesStep(env, EntryText(e) + tail);
    NoListEntry(env, EntryText(e) + tail, |EntryText(e)|);
  }

  lemma EmptyBehind(gap: seq<Piece>, s: Text)
    requires IsGap(gap) && (s == [] || s[0] == COMMA)
    ensures Separator([COMMA] + (GapText(gap) + s), false) == Failed(InvalidAddress)
  {
    hide SkipCfws, IsGap, GapText;
    SkipGap(gap, s);
    var t := [COMMA] + (GapText(gap) + s);
    assert t[1..] == GapText(gap) + s;
    DropFront(GapText(gap), s);
    DropTwice(t, 1, |GapText(gap)|);
  }

  lemma NoListEntry(env: Platform, s: Text, n: nat)
    requires ParseEntry(env, s).Parsed? ==> ParseEntry(env, s).size == n
    requires n < |s| && Still(s[n..]) && Separator(s[n..], false).Failed?
    ensures ListEntry(env, s).Failed?
  {
    hide ParseEntry, SkipCfws, Separator, Still;
    NothingToSkip(s[n..]);
  }
}

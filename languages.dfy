/** The "language" of the Encrypt codec: a Python dict from source characters
    to tokens, kept as its entries in insertion order, together with the fixed
    alphabet and the resample-until-fresh choice of tokens. */
module Languages {
  import opened Common

  /** What a character is replaced by; the default language uses two characters. */
  type Token = string

  /** A language: the dict's (key, value) pairs in insertion order. */
  type Language = seq<(char, Token)>

  /** The two characters returned by one `random.choices(characteres, k=2)`. */
  type Draw = (char, char)

  const LetterLower: string := "abcdefghijklmnopqrstuvwxyz"
  const LetterUpper: string := "ABCDEFGHIJKLMNOPQRSTUVWXYZ"
  const OtherLettersLower: string := "çáãéêâîíõôóúàèìòùú'"
  const OtherLettersUpper: string := "ÇÁÃÉÊÂÎÍÕÔÓÚÀÈÌÒÙÚ'"
  const Numbers: string := "0123456789"
  const Symbols: string := "\\/?°´ª[{]}-+=§!@#$%¨&*()$£¢¬º^~:;.<>,| \""

  /** `characteres`: the alphabet with its repeats (ú, $ and ' occur twice). */
  const Characters: string :=
    LetterLower + LetterUpper + Numbers + Symbols + OtherLettersLower + OtherLettersUpper

  /** The value every key starts with before it is given a token. */
  const Placeholder: Token := " "

  function KeysOf(lang: Language): (ks: seq<char>)
    ensures |ks| == |lang| && forall i :: 0 <= i < |lang| ==> ks[i] == lang[i].0
  {
    seq(|lang|, i requires 0 <= i < |lang| => lang[i].0)
  }

  function ValuesOf(lang: Language): (vs: seq<Token>)
    ensures |vs| == |lang| && forall i :: 0 <= i < |lang| ==> vs[i] == lang[i].1
  {
    seq(|lang|, i requires 0 <= i < |lang| => lang[i].1)
  }

  /** Appending an entry appends its key and its value. */
  lemma AppendEntry(lang: Language, k: char, v: Token)
    ensures KeysOf(lang + [(k, v)]) == KeysOf(lang) + [k]
    ensures ValuesOf(lang + [(k, v)]) == ValuesOf(lang) + [v]
  {
    assert KeysOf(lang + [(k, v)]) == KeysOf(lang) + [k];
    assert ValuesOf(lang + [(k, v)]) == ValuesOf(lang) + [v];
  }

  predicate DistinctKeys(lang: Language)
  {
    Distinct(KeysOf(lang))
  }

  /** A language decrypt can invert: every value has two characters and no two
      keys share a value. */
  predicate Invertible(lang: Language)
  {
    (forall i :: 0 <= i < |lang| ==> |lang[i].1| == 2) && Distinct(ValuesOf(lang))
  }

  /** `d[c]`: the value of key `c`, None where Python raises KeyError. */
  function Get(lang: Language, c: char): (r: Option<Token>)
    ensures r.None? <==> c !in KeysOf(lang)
    ensures r.Some? ==> r.value in ValuesOf(lang)
    ensures r.Some? ==> exists i :: 0 <= i < |lang| && lang[i] == (c, r.value)
                          && forall j :: 0 <= j < i ==> lang[j].0 != c
  {
    match FirstIndex(KeysOf(lang), c)
    case None => None
    case Some(i) => Some(lang[i].1)
  }

  /** `d[k] = v` (and `d.update({k: v})`): a key already present keeps its
      place and gets the new value, a new key is inserted last; every other
      key keeps its value. */
  function Put(lang: Language, k: char, v: Token): (r: Language)
    ensures k in KeysOf(lang) ==> KeysOf(r) == KeysOf(lang)
    ensures k !in KeysOf(lang) ==> r == lang + [(k, v)]
    ensures Get(r, k) == Some(v)
    ensures forall c :: c != k ==> Get(r, c) == Get(lang, c)
    ensures forall i :: 0 <= i < |r| ==> r[i] == (k, v) || (i < |lang| && r[i] == lang[i])
  {
    match FirstIndex(KeysOf(lang), k)
    case None =>
      var r := lang + [(k, v)];
      AppendEntry(lang, k, v);
      assert forall c :: c != k ==> FirstIndex(KeysOf(r), c) == FirstIndex(KeysOf(lang), c) by {
        forall c | c != k { FirstIndexAppend(KeysOf(lang), k, c); }
      }
      r
    case Some(i) =>
      var r := lang[i := (k, v)];
      assert KeysOf(r) == KeysOf(lang);
      assert forall c :: c != k && c in KeysOf(lang) ==> FirstIndex(KeysOf(lang), c).value != i;
      r
  }

  /** `{key: v for key in s}`: one entry per distinct character of `s`, each
      with value `v`. */
  function FromKeys(s: string, v: Token): (r: Language)
    ensures DistinctKeys(r)
    ensures forall c :: c in KeysOf(r) <==> c in s
    ensures forall i :: 0 <= i < |r| ==> r[i].1 == v
    decreases |s|
  {
    if s == [] then []
    else
      var front := FromKeys(s[..|s| - 1], v);
      var c := s[|s| - 1];
      assert s == s[..|s| - 1] + [c];
      var r := Put(front, c, v);
      if c in KeysOf(front) then r
      else
        AppendEntry(front, c, v);
        DistinctAppend(KeysOf(front), c);
        r
  }

  /** The keys of the default language before the newline entry: the distinct
      characters of the alphabet, in first-occurrence order. */
  const DefaultKeys: seq<char> := KeysOf(FromKeys(Characters, Placeholder))

  /** Two characters the alphabet leaves out: the newline (given its own entry
      after the loop) and the euro sign (an example of an unknown character). */
  predicate Foreign(c: char)
  {
    c == '\n' || c == '€'
  }

  lemma ForeignNotInLetterLower(c: char) requires Foreign(c) ensures c !in LetterLower {}
  lemma ForeignNotInLetterUpper(c: char) requires Foreign(c) ensures c !in LetterUpper {}
  lemma ForeignNotInNumbers(c: char) requires Foreign(c) ensures c !in Numbers {}
  lemma ForeignNotInSymbols(c: char) requires Foreign(c) ensures c !in Symbols {}
  lemma ForeignNotInOtherLower(c: char) requires Foreign(c) ensures c !in OtherLettersLower {}
  lemma ForeignNotInOtherUpper(c: char) requires Foreign(c) ensures c !in OtherLettersUpper {}

  lemma ForeignOutsideAlphabet(c: char)
    requires Foreign(c)
    ensures c !in Characters
  {
    ForeignNotInLetterLower(c);
    ForeignNotInLetterUpper(c);
    ForeignNotInNumbers(c);
    ForeignNotInSymbols(c);
    ForeignNotInOtherLower(c);
    ForeignNotInOtherUpper(c);
  }

  lemma DefaultKeysAreAlphabet()
    ensures Distinct(DefaultKeys)
    ensures forall c :: c in DefaultKeys <==> c in Characters
    ensures '\n' !in DefaultKeys
  {
    ForeignOutsideAlphabet('\n');
  }

  function TokenOf(d: Draw): (t: Token)
  {
    [d.0, d.1]
  }

  /** The token of every draw in the stream. */
  function TokensOf(draws: seq<Draw>): (ts: seq<Token>)
    ensures |ts| == |draws| && forall i :: 0 <= i < |draws| ==> ts[i] == TokenOf(draws[i])
  {
    seq(|draws|, i requires 0 <= i < |draws| => TokenOf(draws[i]))
  }

  /** The tokens the resample loop gives `n` further keys, reading the draw
      stream in order and rejecting every draw already in `taken`; None when
      the stream runs out first. */
  function Choose(n: nat, draws: seq<Draw>, taken: seq<Token>): (r: Option<seq<Token>>)
    ensures r.Some? ==> |r.value| == n && Distinct(r.value)
    ensures r.Some? ==> forall i :: 0 <= i < n ==> |r.value[i]| == 2 && r.value[i] !in taken
    ensures r.Some? ==> forall i :: 0 <= i < n ==> r.value[i] in TokensOf(draws)
    decreases |draws|
  {
    if n == 0 then Some([])
    else if draws == [] then None
    else
      var t := TokenOf(draws[0]);
      assert TokensOf(draws) == [t] + TokensOf(draws[1..]);
      if t in taken then Choose(n, draws[1..], taken)
      else match Choose(n - 1, draws[1..], taken + [t])
        case None => None
        case Some(ts) =>
          assert forall i :: 0 <= i < |ts| ==> ts[i] != t && ts[i] !in taken;
          Some([t] + ts)
  }

  /** The newline token cannot collide with a drawn token: its first
      character is not in the alphabet. */
  lemma NewlineTokenIsNew(draws: seq<Draw>, ts: seq<Token>, suffix: char)
    requires forall d :: d in draws ==> d.0 in Characters && d.1 in Characters
    requires forall i :: 0 <= i < |ts| ==> ts[i] in TokensOf(draws)
    ensures ['\n', suffix] !in ts
  {
    ForeignOutsideAlphabet('\n');
  }

  /** `done` followed by what is still to be chosen. */
  function Then(done: seq<Token>, rest: Option<seq<Token>>): Option<seq<Token>>
  {
    match rest
    case None => None
    case Some(ts) => Some(done + ts)
  }

  /** Accepting a fresh draw moves it from the stream to the tokens chosen. */
  lemma ChooseAccept(n: nat, draws: seq<Draw>, done: seq<Token>)
    requires n > 0 && draws != [] && TokenOf(draws[0]) !in done
    ensures Then(done, Choose(n, draws, done))
         == Then(done + [TokenOf(draws[0])], Choose(n - 1, draws[1..], done + [TokenOf(draws[0])]))
  {
    var t := TokenOf(draws[0]);
    match Choose(n - 1, draws[1..], done + [t])
    case None =>
    case Some(ts) =>
      assert done + ([t] + ts) == (done + [t]) + ts;
  }
}

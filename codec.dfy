/** The Encrypt substitution codec: building a language, and encrypting and
    decrypting messages with it. */
module Codec {
  import opened Common
  import opened Languages

  /** The two exceptions the codec raises. */
  datatype Error = KeyError(key: char) | ValueError(message: string)

  /** The message of the ValueError raised by decrypt. */
  const NotOnList: string := "Letter not on list, you are not using correct language!"

  /** `n` copies of the placeholder value. */
  function Placeholders(n: nat): (r: seq<Token>)
    ensures |r| == n && forall i :: 0 <= i < n ==> r[i] == Placeholder
  {
    seq(n, _ => Placeholder)
  }

  /** The loop of `Encrypt.__init__` over the keys of a dict whose values are
      all the placeholder: each key in insertion order gets the first draw
      that is not already a value of the dict. `draws` stands for the
      successive results of `random.choices`; the result is None when they
      run out before every key has a token. */
  method AssignTokens(start: Language, draws: seq<Draw>) returns (r: Option<Language>)
    requires forall i :: 0 <= i < |start| ==> start[i].1 == Placeholder
    ensures r.Some? <==> Choose(|start|, draws, []).Some?
    ensures r.Some? ==> KeysOf(r.value) == KeysOf(start)
    ensures r.Some? ==> ValuesOf(r.value) == Choose(|start|, draws, []).value
  {
    var lang := start;
    ghost var goal := Choose(|lang|, draws, []);
    ghost var done: seq<Token> := [];
    var i, pos := 0, 0;
    assert ValuesOf(lang) == done + Placeholders(|lang|);
    assert draws[0..] == draws;
    assert Then(done, goal) == goal by {
      if goal.Some? { assert done + goal.value == goal.value; }
    }
    while i < |lang|
      invariant i <= |lang| == |start| && pos <= |draws|
      invariant KeysOf(lang) == KeysOf(start)
      invariant |done| == i
      invariant ValuesOf(lang) == done + Placeholders(|lang| - i)
      invariant Then(done, Choose(|lang| - i, draws[pos..], done)) == goal
    {
      // while True: redraw until the token is not among the dict's values
      var letter, unused := Placeholder, false;
      while !unused
        invariant pos <= |draws|
        invariant !unused ==> Then(done, Choose(|lang| - i, draws[pos..], done)) == goal
        invariant unused ==> letter !in done
        invariant unused ==> Then(done + [letter], Choose(|lang| - i - 1, draws[pos..], done + [letter])) == goal
        decreases |draws| - pos
      {
        if pos == |draws| {
          return None;
        }
        letter := TokenOf(draws[pos]);
        assert draws[pos..][1..] == draws[pos + 1..];
        assert letter in ValuesOf(lang) <==> letter in done by {
          assert letter !in Placeholders(|lang| - i);
        }
        if letter !in ValuesOf(lang) {
          ChooseAccept(|lang| - i, draws[pos..], done);
          unused := true;
        }
        pos := pos + 1;
      }
      lang := lang[i := (lang[i].0, letter)];
      done := done + [letter];
      assert ValuesOf(lang) == done + Placeholders(|lang| - i - 1);
      i := i + 1;
    }
    assert ValuesOf(lang) == done;
    return Some(lang);
  }

  /** The default branch of `Encrypt.__init__`: every distinct alphabet
      character starts at the placeholder, the keys get fresh tokens from the
      draws, and then the newline is added with `"\n" + suffix`, `suffix`
      standing for the result of `random.choice`. */
  method NewLanguage(draws: seq<Draw>, suffix: char) returns (r: Option<Language>)
    requires forall d :: d in draws ==> d.0 in Characters && d.1 in Characters
    requires suffix in Characters
    ensures r.Some? <==> Choose(|DefaultKeys|, draws, []).Some?
    ensures r.Some? ==> KeysOf(r.value) == DefaultKeys + ['\n']
    ensures r.Some? ==> ValuesOf(r.value) == Choose(|DefaultKeys|, draws, []).value + [['\n', suffix]]
    ensures r.Some? ==> DistinctKeys(r.value) && Invertible(r.value)
  {
    var lang := FromKeys(Characters, Placeholder);
    var filled := AssignTokens(lang, draws);
    if filled.None? {
      return None;
    }
    ghost var done := Choose(|DefaultKeys|, draws, []).value;
    DefaultKeysAreAlphabet();
    var token := ['\n', suffix];
    var result := Put(filled.value, '\n', token);
    AppendEntry(filled.value, '\n', token);
    NewlineTokenIsNew(draws, done, suffix);
    DistinctAppend(DefaultKeys, '\n');
    DistinctAppend(done, token);
    return Some(result);
  }

  /** The slices of at most two characters that start at the even positions
      of the message. */
  function Chunks(message: string): seq<string>
  {
    seq((|message| + 1) / 2,
        k requires 0 <= k < (|message| + 1) / 2 =>
          message[2 * k .. if 2 * k + 2 <= |message| then 2 * k + 2 else |message|])
  }

  /** What decrypt returns for the chunks of a message: the key of the first
      entry carrying each chunk as its value, or the ValueError. */
  function Decoded(lang: Language, chunks: seq<string>): (r: Result<string, Error>)
    ensures r.Ok? <==> forall k :: 0 <= k < |chunks| ==> chunks[k] in ValuesOf(lang)
    ensures r.Err? ==> r.error == ValueError(NotOnList)
    ensures r.Ok? ==> |r.value| == |chunks|
    ensures r.Ok? ==> forall k :: 0 <= k < |chunks| ==>
              FirstIndex(ValuesOf(lang), chunks[k]).Some? &&
              r.value[k] == lang[FirstIndex(ValuesOf(lang), chunks[k]).value].0
  {
    if chunks == [] then Ok([])
    else match FirstIndex(ValuesOf(lang), chunks[0])
      case None => Err(ValueError(NotOnList))
      case Some(i) =>
        match Decoded(lang, chunks[1..])
        case Err(e) => Err(e)
        case Ok(rest) =>
          assert forall k :: 1 <= k < |chunks| ==> chunks[k] == chunks[1..][k - 1];
          Ok([lang[i].0] + rest)
  }

  /** `decrypted` followed by what is still to be decoded. */
  function Prefixed(decrypted: string, rest: Result<string, Error>): Result<string, Error>
  {
    match rest
    case Err(e) => Err(e)
    case Ok(s) => Ok(decrypted + s)
  }

  /** Decoding one more chunk moves its key into the decoded prefix. */
  lemma DecodedStep(lang: Language, chunks: seq<string>, decrypted: string, i: nat)
    requires chunks != [] && FirstIndex(ValuesOf(lang), chunks[0]) == Some(i)
    ensures Prefixed(decrypted, Decoded(lang, chunks))
         == Prefixed(decrypted + [lang[i].0], Decoded(lang, chunks[1..]))
  {
    var rest := Decoded(lang, chunks[1..]);
    if rest.Ok? {
      assert decrypted + ([lang[i].0] + rest.value) == (decrypted + [lang[i].0]) + rest.value;
    }
  }

  /** Nothing decoded yet, or nothing left to decode. */
  lemma PrefixedEmpty(decrypted: string, rest: Result<string, Error>)
    ensures Prefixed([], rest) == rest
    ensures Prefixed(decrypted, Ok([])) == Ok(decrypted)
  {
    if rest.Ok? { assert [] + rest.value == rest.value; }
    assert decrypted + [] == decrypted;
  }

  /** The codec object: its language is fixed at construction. */
  class Encrypt {
    const language: Language

    /** `Encrypt(language)`: a non-empty supplied language is used as it is,
        without checking its values; otherwise a default language is
        generated from the draws. A dict never repeats a key, so neither does
        a supplied language. */
    constructor (supplied: Language, draws: seq<Draw>, suffix: char)
      requires |supplied| > 0 ==> DistinctKeys(supplied)
      requires |supplied| == 0 ==>
                 (forall d :: d in draws ==> d.0 in Characters && d.1 in Characters)
                 && suffix in Characters
                 && Choose(|DefaultKeys|, draws, []).Some?
      ensures DistinctKeys(language)
      ensures |supplied| > 0 ==> language == supplied
      ensures |supplied| == 0 ==>
                KeysOf(language) == DefaultKeys + ['\n']
                && ValuesOf(language) == Choose(|DefaultKeys|, draws, []).value + [['\n', suffix]]
                && DistinctKeys(language) && Invertible(language)
    {
      if |supplied| > 0 {
        language := supplied;
      } else {
        var built := NewLanguage(draws, suffix);
        language := built.value;
      }
    }

    /** `encrypt`: the tokens of the message's characters, in order; a
        KeyError for the first character that is not a key. */
    function Encrypt(message: string): (r: Result<string, Error>)
      ensures r.Ok? <==> forall k :: 0 <= k < |message| ==> message[k] in KeysOf(language)
      ensures r.Err? ==> exists k :: 0 <= k < |message| && r.error == KeyError(message[k])
                           && message[k] !in KeysOf(language)
                           && forall j :: 0 <= j < k ==> message[j] in KeysOf(language)
      ensures r.Ok? && (forall i :: 0 <= i < |language| ==> |language[i].1| == 2) ==>
                |r.value| == 2 * |message|
    {
      if message == [] then Ok([])
      else match Get(language, message[0])
        case None => Err(KeyError(message[0]))
        case Some(token) =>
          assert forall k :: 1 <= k < |message| ==> message[k] == message[1..][k - 1];
          match Encrypt(message[1..])
          case Err(e) =>
            assert exists k :: 1 <= k < |message| && e == KeyError(message[k])
                     && message[k] !in KeysOf(language)
                     && forall j :: 0 <= j < k ==> message[j] in KeysOf(language) by {
              var k' :| 0 <= k' < |message[1..]| && e == KeyError(message[1..][k'])
                         && message[1..][k'] !in KeysOf(language)
                         && forall j :: 0 <= j < k' ==> message[1..][j] in KeysOf(language);
              assert forall j :: 1 <= j < k' + 1 ==> message[j] == message[1..][j - 1];
              assert message[k' + 1] == message[1..][k'];
            }
            Err(e)
          case Ok(rest) => Ok(token + rest)
    }

    /** `decrypt`: cut the message into two-character chunks and replace each
        by the first key whose value it is; a ValueError for a chunk that is
        no value. */
    method Decrypt(message: string) returns (r: Result<string, Error>)
      ensures r == Decoded(language, Chunks(message))
    {
      var original, encrypted := KeysOf(language), ValuesOf(language);
      var chunks := Chunks(message);
      var decrypted: string := [];
      assert chunks[0..] == chunks;
      PrefixedEmpty(decrypted, Decoded(language, chunks));
      for k := 0 to |chunks|
        invariant Prefixed(decrypted, Decoded(language, chunks[k..])) == Decoded(language, chunks)
      {
        var index := FirstIndex(encrypted, chunks[k]);
        if index.None? {
          return Err(ValueError(NotOnList));
        }
        assert chunks[k..][1..] == chunks[k + 1..];
        DecodedStep(language, chunks[k..], decrypted, index.value);
        decrypted := decrypted + [original[index.value]];
      }
      assert chunks[|chunks|..] == [];
      PrefixedEmpty(decrypted, Ok([]));
      return Ok(decrypted);
    }
  }
}

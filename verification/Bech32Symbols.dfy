/** The 5-bit symbols of Bech32 as numbers and as machine words. */
module Bech32Symbols {
  import opened Common
  import opened BitStrings
  import opened Bech32Checksum
  import opened Bech32Burst

  /** The characters of a std::string, taken as unsigned char. */
  type Char8 = c: char | c as int < 256 witness 'b'

  function Words(symbols: seq<nat>): (w: seq<word>)
    requires Fits(symbols, 5)
    ensures |w| == |symbols|
  {
    PowersOfTwo();
    seq(|symbols|, i requires 0 <= i < |symbols| => symbols[i] as word)
  }

  lemma WordBack(w: word)
    ensures (w as int) as word == w
  {
  }

  lemma NextWord(w: word)
    requires w as int < 256
    ensures (w + 1) as int == w as int + 1
  {
  }

  lemma {:induction false} WordFor(x: nat) returns (w: word)
    requires x < 256
    ensures w as int == x
  {
    w := 0;
    if x > 0 {
      w := WordFor(x - 1);
      NextWord(w);
      w := w + 1;
    }
  }

  lemma WordOfByte(x: nat)
    requires x < 256
    ensures (x as word) as int == x
  {
    var w := WordFor(x);
    WordBack(w);
  }

  lemma SmallNumber(w: word)
    requires w < 32
    ensures w as int < 32
  {
  }

  lemma SymbolWord(w: word)
    requires w as int < 32
    ensures w < 32
  {
  }

  lemma WordOfSymbol(x: nat)
    requires x < 32
    ensures x as word < 32 && (x as word) as nat == x
  {
    WordOfByte(x);
    SymbolWord(x as word);
  }

  lemma WordsAreSymbols(symbols: seq<nat>)
    requires Fits(symbols, 5)
    ensures Symbols(Words(symbols))
    ensures Numbers(Words(symbols)) == symbols
  {
    PowersOfTwo();
    forall i | 0 <= i < |symbols| ensures Words(symbols)[i] < 32 && Words(symbols)[i] as nat == symbols[i] {
      WordOfSymbol(symbols[i]);
    }
  }

  function Numbers(words: seq<word>): (n: seq<nat>)
    ensures |n| == |words|
  {
    seq(|words|, i requires 0 <= i < |words| => words[i] as nat)
  }

  function CharWord(c: Char8): word { c as int as word }

  function High(c: Char8): word { CharWord(c) >> 5 }

  function Low(c: Char8): word { CharWord(c) & 31 }

  lemma WordOfChar(c: Char8)
    ensures CharWord(c) as int == c as int
  {
    WordOfByte(c as int);
  }

  // The two parts of a character code.

  function Next(w: word): word { w + 1 }

  function Number(w: word): nat { w as nat }

  lemma NextIsNext(w: word)
    requires Number(w) < 256
    ensures Number(Next(w)) == Number(w) + 1
  {
    NextWord(w);
  }

  lemma LastSymbol(w: word)
    ensures Number(w) == 31 <==> w == 31
  {
    WordBack(w);
  }

  lemma NextHalves(w: word)
    requires Number(w) < 256
    ensures Low5(w) == 31 ==> Drop5(Next(w)) == Next(Drop5(w)) && Low5(Next(w)) == 0
    ensures Low5(w) != 31 ==> Drop5(Next(w)) == Drop5(w) && Low5(Next(w)) == Next(Low5(w))
  {
    assert w < 256;
  }

  lemma ZeroIsZero()
    ensures Number(0) == 0 && Drop5(0) == 0 && Low5(0) == 0
  {
  }

  lemma HalvesStep(v: word, x: nat)
    requires x < 256 && Number(v) == x && Number(Drop5(v)) == x / 32 && Number(Low5(v)) == x % 32
    ensures var w := Next(v);
      Number(w) == x + 1 && Number(Drop5(w)) == (x + 1) / 32 && Number(Low5(w)) == (x + 1) % 32
  {
    hide Drop5, Low5, Next, Number;
    NextIsNext(v);
    NextHalves(v);
    LastSymbol(Low5(v));
    if x % 32 == 31 {
      NextIsNext(Drop5(v));
      ZeroIsZero();
    } else {
      NextIsNext(Low5(v));
    }
  }

  lemma {:induction false} HalvesFor(x: nat) returns (w: word)
    requires x < 256
    ensures Number(w) == x && Number(Drop5(w)) == x / 32 && Number(Low5(w)) == x % 32
  {
    hide Drop5, Low5, Next, Number;
    ZeroIsZero();
    w := 0;
    if x > 0 {
      var v := HalvesFor(x - 1);
      HalvesStep(v, x - 1);
      w := Next(v);
    }
  }

  /** Shifting and masking a character code is dividing it by 32. */
  lemma HalvesAreNumbers(c: Char8)
    ensures High(c) as int == c as int / 32 && Low(c) as int == c as int % 32
  {
    hide CharWord, Drop5, Low5, High, Low;
    var w := HalvesFor(c as int);
    WordBack(w);
    WordIs(c, w);
    HalvesOfWord(c);
  }

  lemma WordIs(c: Char8, w: word)
    requires (c as int) as word == w
    ensures CharWord(c) == w
  {
  }

  lemma HalvesOfWord(c: Char8)
    ensures High(c) == Drop5(CharWord(c)) && Low(c) == Low5(CharWord(c))
  {
    hide CharWord;
  }
}

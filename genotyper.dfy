/** The genotype value type and the classification rules of
    hcv_genotyper/genotyper.py.

    The BLAST search itself is an external process; here it is the function
    `search` a `Classifier` is built with, from a query sequence to the list
    of (title, score) descriptions BLAST reports for it. */
module Genotyper {
  import opened Wrappers
  import Cache

  // ---------------------------------------------------------------------
  // Genotype

  /** `Genotype(gt, sub_gt)`. The parser only produces a major type 1..6
      and a one-letter subtype, but the tuple itself accepts any int and any
      optional string, so the model does too. */
  datatype Genotype = Genotype(gt: int, subGt: Option<string>)

  /** The exceptions the modelled code raises. */
  datatype Error =
    | ParseError(src: string)   // ValueError from `Genotype.parse`
    | ArityError(count: nat)    // TypeError: the classifier takes one argument

  predicate IsMajorDigit(c: char) { '1' <= c <= '6' }

  predicate IsSubtypeLetter(c: char) { 'a' <= c <= 'z' }

  /** The genotypes `parse` can return. */
  predicate ValidGenotype(g: Genotype)
  {
    && 1 <= g.gt <= 6
    && (g.subGt.Some? ==> |g.subGt.value| == 1 && IsSubtypeLetter(g.subGt.value[0]))
  }

  function DigitChar(d: nat): char
    requires d < 10
  {
    ('0' as int + d) as char
  }

  function DigitValue(c: char): int
  {
    c as int - '0' as int
  }

  /** The value of a string of decimal digits. */
  function DecimalValue(s: string): int
  {
    if s == [] then 0 else DecimalValue(s[..|s| - 1]) * 10 + DigitValue(s[|s| - 1])
  }

  predicate AllDigits(s: string)
  {
    forall i | 0 <= i < |s| :: '0' <= s[i] <= '9'
  }

  /** Python's `str` of a non-negative int: its decimal digits. */
  function NatToString(n: nat): (s: string)
    ensures |s| >= 1 && AllDigits(s)
    ensures |s| == 1 <==> n < 10
  {
    if n < 10 then [DigitChar(n)] else NatToString(n / 10) + [DigitChar(n % 10)]
  }

  /** The digits read back give the number, with no leading zero. */
  lemma {:induction false} NatToStringValue(n: nat)
    ensures DecimalValue(NatToString(n)) == n
    ensures n > 0 ==> NatToString(n)[0] != '0'
  {
    if n >= 10 {
      var s := NatToString(n);
      NatToStringValue(n / 10);
      assert s[..|s| - 1] == NatToString(n / 10);
    }
  }

  /** Python's `str` of an int: a minus sign for negatives, then the digits. */
  function IntToString(i: int): (s: string)
    ensures |s| >= 1
    ensures s[0] == '-' <==> i < 0
    ensures AllDigits(if i < 0 then s[1..] else s)
  {
    if i < 0 then "-" + NatToString(-i) else NatToString(i)
  }

  lemma IntToStringValue(i: int)
    ensures var s := IntToString(i); i == if i < 0 then -DecimalValue(s[1..]) else DecimalValue(s)
  {
    if i < 0 {
      NatToStringValue(-i);
      assert IntToString(i)[1..] == NatToString(-i);
    } else {
      NatToStringValue(i);
    }
  }

  /** `Genotype.__str__`: the major type, then the subtype when it is
      present and not empty. */
  function Format(g: Genotype): (s: string)
    ensures ValidGenotype(g) ==> |s| == (if g.subGt.Some? then 2 else 1) && s[0] == DigitChar(g.gt)
    ensures ValidGenotype(g) && g.subGt.Some? ==> s[1..] == g.subGt.value
  {
    IntToString(g.gt) + if g.subGt.Some? && g.subGt.value != "" then g.subGt.value else ""
  }

  /** An empty subtype prints like a missing one. */
  lemma FormatEmptySubtype(gt: int)
    ensures Format(Genotype(gt, Some(""))) == Format(Genotype(gt, None)) == IntToString(gt)
  {
  }

  lemma FormatExamples()
    ensures Format(Genotype(1, Some("a"))) == "1a"
    ensures Format(Genotype(1, None)) == "1"
    ensures Format(Genotype(2, Some("b"))) == "2b"
  {
  }

  /** `Genotype.parse`: match `^([123456])([a-z]?)` at the start of `src`.
      It succeeds exactly when `src` starts with a major digit; it then
      returns a valid genotype whose printed form is a prefix of `src`,
      taking the subtype letter whenever one follows the digit. */
  function Parse(src: string): (r: Result<Genotype, Error>)
    ensures r.Ok? <==> |src| >= 1 && IsMajorDigit(src[0])
    ensures r.Err? ==> r.error == ParseError(src)
    ensures r.Ok? ==> ValidGenotype(r.value)
    ensures r.Ok? && r.value.subGt.None? ==> |src| == 1 || !IsSubtypeLetter(src[1])
  {
    if |src| >= 1 && IsMajorDigit(src[0]) then
      var subSrc := if |src| >= 2 && IsSubtypeLetter(src[1]) then src[1..2] else "";
      Ok(Genotype(DigitValue(src[0]), if subSrc == "" then None else Some(subSrc)))
    else
      Err(ParseError(src))
  }

  /** Parsing inverts printing on every valid genotype. */
  lemma ParseFormat(g: Genotype)
    requires ValidGenotype(g)
    ensures Parse(Format(g)) == Ok(g)
  {
    var s := Format(g);
    if g.subGt.Some? {
      assert s[1..2] == g.subGt.value;
    }
  }

  /** Printing a parsed genotype gives back the prefix that was matched. */
  lemma FormatParse(src: string)
    requires Parse(src).Ok?
    ensures var g := Parse(src).value; Format(g) <= src && Parse(Format(g)) == Ok(g)
  {
    var g := Parse(src).value;
    ParseFormat(g);
    if g.subGt.Some? {
      assert Format(g) == src[..2];
    } else {
      assert Format(g) == src[..1];
    }
  }

  /** Text after a printed genotype is ignored, unless it starts with a
      letter that the parser takes as the missing subtype. */
  lemma ParseIgnoresTrailing(g: Genotype, rest: string)
    requires ValidGenotype(g)
    requires g.subGt.Some? || rest == [] || !IsSubtypeLetter(rest[0])
    ensures Parse(Format(g) + rest) == Ok(g)
  {
  }

  /** Only the first two characters decide the outcome. */
  lemma ParseDependsOnPrefix(s: string, t: string)
    requires s[..if |s| < 2 then |s| else 2] == t[..if |t| < 2 then |t| else 2]
    ensures Parse(s).Ok? == Parse(t).Ok?
    ensures Parse(s).Ok? ==> Parse(s).value == Parse(t).value
  {
  }

  /** Labels the parser refuses: no leading digit 1..6. */
  lemma ParseRejects()
    ensures Parse("a") == Err(ParseError("a"))
    ensures Parse(" 1a") == Err(ParseError(" 1a"))
    ensures Parse("7b") == Err(ParseError("7b"))
    ensures Parse("Samson") == Err(ParseError("Samson"))
    ensures Parse("").Err?
  {
  }

  // ---------------------------------------------------------------------
  // Best match

  /** A BLAST `Record.Description`, reduced to what `best_match` reads. */
  datatype Description = Description(title: string, score: int)

  /** `MatchScore(gt, score)`. */
  datatype MatchScore = MatchScore(gt: Genotype, score: int)

  /** `title.split(" ")[-1]`: the text after the last space, or the whole
      title when it has none. */
  function LastToken(title: string): string
  {
    if title == [] || title[|title| - 1] == ' ' then ""
    else LastToken(title[..|title| - 1]) + [title[|title| - 1]]
  }

  /** The last token is a space-free suffix of the title that is either the
      whole title or preceded by a space; these three facts determine it. */
  lemma {:induction false} LastTokenSpec(title: string)
    ensures var t := LastToken(title);
      && |t| <= |title| && t == title[|title| - |t|..]
      && ' ' !in t
      && (|t| == |title| || title[|title| - |t| - 1] == ' ')
  {
    if title != [] && title[|title| - 1] != ' ' {
      var init := title[..|title| - 1];
      LastTokenSpec(init);
      var t := LastToken(title);
      assert t == LastToken(init) + [title[|title| - 1]];
      assert title == init + [title[|title| - 1]];
    }
  }

  /** The last token of a title that ends in " " + a space-free `t` is `t`. */
  lemma {:induction false} LastTokenAfterSpace(a: string, t: string)
    requires ' ' !in t
    ensures LastToken(a + " " + t) == t
  {
    var title := a + " " + t;
    if t == [] {
      assert title[|title| - 1] == ' ';
    } else {
      var t' := t[..|t| - 1];
      assert title[..|title| - 1] == a + " " + t';
      assert title[|title| - 1] == t[|t| - 1];
      assert t[|t| - 1] in t;
      LastTokenAfterSpace(a, t');
      assert t' + [t[|t| - 1]] == t;
    }
  }

  /** `parse_desc`: the genotype named by the title's last token, with the
      description's score. */
  function ParseDesc(d: Description): (r: Result<MatchScore, Error>)
  {
    match Parse(LastToken(d.title))
    case Ok(g) => Ok(MatchScore(g, d.score))
    case Err(e) => Err(e)
  }

  /** `[parse_desc(desc) for desc in blast_descs]`: every description is
      parsed in order, and the first failure is raised. */
  function ParseAll(descs: seq<Description>): (r: Result<seq<MatchScore>, Error>)
    ensures r.Ok? ==> |r.value| == |descs|
    ensures r.Ok? ==> forall i | 0 <= i < |descs| :: ParseDesc(descs[i]) == Ok(r.value[i])
    ensures r.Err? ==> exists i | 0 <= i < |descs| :: ParseDesc(descs[i]).Err?
    ensures r.Err? ==> ParseDesc(descs[FirstFailure(descs)]) == Err(r.error)
  {
    if descs == [] then Ok([])
    else
      match ParseDesc(descs[0])
      case Err(e) => Err(e)
      case Ok(m) =>
        match ParseAll(descs[1..])
        case Err(e) =>
          var k := FirstFailure(descs[1..]);
          assert descs[k + 1] == descs[1..][k];
          assert FirstFailure(descs) == k + 1;
          Err(e)
        case Ok(ms) => Ok([m] + ms)
  }

  /** The position of the first description whose title does not parse. */
  function FirstFailure(descs: seq<Description>): (i: nat)
    requires exists i | 0 <= i < |descs| :: ParseDesc(descs[i]).Err?
    ensures i < |descs| && ParseDesc(descs[i]).Err?
    ensures forall j | 0 <= j < i :: ParseDesc(descs[j]).Ok?
  {
    if ParseDesc(descs[0]).Err? then 0
    else
      var i :| 0 <= i < |descs| && ParseDesc(descs[i]).Err?;
      assert descs[1..][i - 1] == descs[i];
      FirstFailure(descs[1..]) + 1
  }

  /** Highest score first. */
  predicate Descending(ms: seq<MatchScore>)
  {
    forall i, j | 0 <= i < j < |ms| :: ms[i].score >= ms[j].score
  }

  /** Insert `m`, which came before every element of `ms` in the input,
      ahead of all elements it ties with. */
  function Insert(m: MatchScore, ms: seq<MatchScore>): (r: seq<MatchScore>)
    ensures multiset(r) == multiset(ms) + multiset{m}
    ensures |r| == |ms| + 1
  {
    if ms == [] || m.score >= ms[0].score then [m] + ms
    else
      var rest := Insert(m, ms[1..]);
      assert ms == [ms[0]] + ms[1..];
      [ms[0]] + rest
  }

  /** Inserting into a descending list keeps it descending. */
  lemma {:induction false} InsertDescending(m: MatchScore, ms: seq<MatchScore>)
    requires Descending(ms)
    ensures Descending(Insert(m, ms))
    ensures Insert(m, ms)[0] == m || Insert(m, ms)[0] == ms[0]
  {
    if ms != [] && m.score < ms[0].score {
      var rest := Insert(m, ms[1..]);
      InsertDescending(m, ms[1..]);
      assert rest[0].score <= ms[0].score;
      var r := [ms[0]] + rest;
      forall i, j | 0 <= i < j < |r| ensures r[i].score >= r[j].score {
        if i > 0 {
          assert r[i] == rest[i - 1] && r[j] == rest[j - 1];
        } else {
          assert r[j] == rest[j - 1];
          assert rest[0].score >= rest[j - 1].score;
        }
      }
    }
  }

  /** `sorted(ms, key=score, reverse=True)`: a stable sort, highest score
      first, so that ties keep their input order. */
  function SortByScore(ms: seq<MatchScore>): (r: seq<MatchScore>)
    ensures multiset(r) == multiset(ms) && |r| == |ms|
    ensures Descending(r)
  {
    if ms == [] then []
    else
      assert ms == [ms[0]] + ms[1..];
      InsertDescending(ms[0], SortByScore(ms[1..]));
      Insert(ms[0], SortByScore(ms[1..]))
  }

  /** Position `i` holds a highest score, and no earlier position does. */
  predicate IsFirstMax(scores: seq<int>, i: int)
  {
    && 0 <= i < |scores|
    && (forall j | 0 <= j < |scores| :: scores[j] <= scores[i])
    && (forall j | 0 <= j < i :: scores[j] < scores[i])
  }

  function Scores(ms: seq<MatchScore>): (scores: seq<int>)
    ensures |scores| == |ms| && forall j | 0 <= j < |ms| :: scores[j] == ms[j].score
  {
    if ms == [] then [] else [ms[0].score] + Scores(ms[1..])
  }

  function DescScores(descs: seq<Description>): (scores: seq<int>)
    ensures |scores| == |descs| && forall j | 0 <= j < |descs| :: scores[j] == descs[j].score
  {
    if descs == [] then [] else [descs[0].score] + DescScores(descs[1..])
  }

  /** The position of the first highest score, found independently of the sort. */
  function FirstBest(ms: seq<MatchScore>): (i: nat)
    requires |ms| > 0
    ensures IsFirstMax(Scores(ms), i)
  {
    if |ms| == 1 then 0
    else
      var k := FirstBest(ms[1..]) + 1;
      if ms[0].score >= ms[k].score then 0 else k
  }

  /** The head of the stable descending sort is the first highest-scoring
      element. */
  lemma {:induction false} SortByScoreHead(ms: seq<MatchScore>)
    requires |ms| > 0
    ensures SortByScore(ms)[0] == ms[FirstBest(ms)]
  {
    if |ms| > 1 {
      SortByScoreHead(ms[1..]);
    }
  }

  /** `best_match`: parse every description, sort by score, highest first,
      and take the head, or None when there is nothing to sort. */
  function BestMatch(descs: seq<Description>): (r: Result<Option<Genotype>, Error>)
  {
    match ParseAll(descs)
    case Err(e) => Err(e)
    case Ok(ms) =>
      var sorted := SortByScore(ms);
      if sorted == [] then Ok(None) else Ok(Some(sorted[0].gt))
  }

  /** `best_match` raises exactly when some title's last token does not
      parse, whether or not that description is the best one. */
  lemma BestMatchFails(descs: seq<Description>)
    ensures BestMatch(descs).Err? <==> exists i | 0 <= i < |descs| :: ParseDesc(descs[i]).Err?
  {
  }

  /** `best_match` returns None exactly for an empty list. */
  lemma BestMatchNone(descs: seq<Description>)
    ensures BestMatch(descs) == Ok(None) <==> descs == []
  {
  }

  /** Otherwise it returns the genotype of the first description with the
      highest score. */
  lemma BestMatchHighest(descs: seq<Description>)
    requires BestMatch(descs).Ok? && descs != []
    ensures exists i | IsFirstMax(DescScores(descs), i) ::
              && Parse(LastToken(descs[i].title)).Ok?
              && BestMatch(descs).value == Some(Parse(LastToken(descs[i].title)).value)
  {
    var ms := ParseAll(descs).value;
    assert |SortByScore(ms)| == |ms| > 0;
    SortByScoreHead(ms);
    var i := FirstBest(ms);
    forall j | 0 <= j < |descs| ensures ms[j].score == descs[j].score {
      assert ParseDesc(descs[j]) == Ok(ms[j]);
    }
    assert IsFirstMax(DescScores(descs), i);
    assert ParseDesc(descs[i]) == Ok(ms[i]);
    assert BestMatch(descs).value == Some(ms[i].gt);
  }

  /** Of two descriptions that both parse, the second wins only with a
      strictly higher score. */
  lemma BestMatchOfTwo(d0: Description, d1: Description)
    requires ParseDesc(d0).Ok? && ParseDesc(d1).Ok?
    ensures BestMatch([d0, d1]) == Ok(Some(if d0.score >= d1.score then ParseDesc(d0).value.gt else ParseDesc(d1).value.gt))
  {
    var m0, m1 := ParseDesc(d0).value, ParseDesc(d1).value;
    assert ParseAll([d0, d1]) == Ok([m0, m1]) by {
      assert [d0, d1][1..] == [d1] && [d1][1..] == [];
      assert ParseAll([]) == Ok([]) && [m1] + [] == [m1];
      assert ParseAll([d1]) == Ok([m1]);
      assert [m0] + [m1] == [m0, m1];
    }
    assert SortByScore([m0, m1]) == Insert(m0, [m1]) by {
      assert [m0, m1][1..] == [m1] && [m1][1..] == [];
      assert SortByScore([m1]) == [m1];
    }
  }

  /** The highest score wins even when it comes last. */
  lemma BestMatchHighestWins(d0: Description, d1: Description)
    requires d0 == Description("ref 2a", 50) && d1 == Description("ref 1b", 90)
    ensures BestMatch([d0, d1]) == Ok(Some(Genotype(1, Some("b"))))
  {
    assert ParseDesc(d0).Ok? by {
      LastTokenAfterSpace("ref", "2a");
      assert "ref" + " " + "2a" == "ref 2a";
    }
    assert ParseDesc(d1) == Ok(MatchScore(Genotype(1, Some("b")), 90)) by {
      LastTokenAfterSpace("ref", "1b");
      assert "ref" + " " + "1b" == "ref 1b";
      assert "1b"[1..2] == "b";
    }
    BestMatchOfTwo(d0, d1);
  }

  /** Of two equal scores, the earlier description wins. */
  lemma BestMatchTieGoesFirst(d0: Description, d1: Description)
    requires d0 == Description("ref 3", 70) && d1 == Description("ref 4d", 70)
    ensures BestMatch([d0, d1]) == Ok(Some(Genotype(3, None)))
  {
    assert ParseDesc(d0) == Ok(MatchScore(Genotype(3, None), 70)) by {
      LastTokenAfterSpace("ref", "3");
      assert "ref" + " " + "3" == "ref 3";
    }
    assert ParseDesc(d1).Ok? by {
      LastTokenAfterSpace("ref", "4d");
      assert "ref" + " " + "4d" == "ref 4d";
    }
    BestMatchOfTwo(d0, d1);
  }

  /** A title that does not parse raises even when its score is not the best. */
  lemma BestMatchRaisesOnAnyBadTitle()
    ensures BestMatch([Description("ref 1a", 90), Description("ref x", 10)]).Err?
  {
  }

  // ---------------------------------------------------------------------
  // Sequence normalisation

  /** The characters `tidy_seq_input` strips. */
  predicate IsNoise(c: char) { c == ' ' || c == '-' || c == '~' }

  /** `s.replace(c, "")`. */
  function RemoveChar(s: string, c: char): (r: string)
    ensures c !in r
    ensures forall x | x in r :: x in s
  {
    if s == [] then "" else (if s[0] == c then "" else [s[0]]) + RemoveChar(s[1..], c)
  }

  /** `seq.replace(" ", "").replace("-", "").replace("~", "")`. */
  function Tidy(s: string): string
  {
    RemoveChar(RemoveChar(RemoveChar(s, ' '), '-'), '~')
  }

  /** The non-noise characters of `s`, in order: what tidying should keep. */
  function Signal(s: string): (r: string)
  {
    if s == [] then "" else (if IsNoise(s[0]) then "" else [s[0]]) + Signal(s[1..])
  }

  lemma {:induction false} RemoveCharAppend(a: string, b: string, c: char)
    ensures RemoveChar(a + b, c) == RemoveChar(a, c) + RemoveChar(b, c)
  {
    if a != [] {
      assert (a + b)[1..] == a[1..] + b;
      RemoveCharAppend(a[1..], b, c);
    } else {
      assert a + b == b;
    }
  }

  /** The three `replace` calls keep exactly the non-noise characters, in order. */
  lemma {:induction false} TidyIsSignal(s: string)
    ensures Tidy(s) == Signal(s)
  {
    if s != [] {
      var head, rest := [s[0]], s[1..];
      assert s == head + rest;
      TidyIsSignal(rest);
      var r1 := RemoveChar(s, ' ');
      assert r1 == RemoveChar(head, ' ') + RemoveChar(rest, ' ');
      RemoveCharAppend(RemoveChar(head, ' '), RemoveChar(rest, ' '), '-');
      var r2 := RemoveChar(r1, '-');
      RemoveCharAppend(RemoveChar(RemoveChar(head, ' '), '-'), RemoveChar(RemoveChar(rest, ' '), '-'), '~');
      assert RemoveChar(head, ' ') == if s[0] == ' ' then "" else head;
      assert RemoveChar("", '-') == "" && RemoveChar("", '~') == "";
      assert RemoveChar(head, '-') == if s[0] == '-' then "" else head;
      assert RemoveChar(head, '~') == if s[0] == '~' then "" else head;
    }
  }

  lemma {:induction false} SignalClean(s: string)
    ensures forall i | 0 <= i < |Signal(s)| :: !IsNoise(Signal(s)[i])
  {
    if s != [] {
      SignalClean(s[1..]);
    }
  }

  /** A string with no noise is its own signal. */
  lemma {:induction false} SignalOfClean(s: string)
    requires forall i | 0 <= i < |s| :: !IsNoise(s[i])
    ensures Signal(s) == s
  {
    if s != [] {
      SignalOfClean(s[1..]);
    }
  }

  lemma {:induction false} SignalAppend(a: string, b: string)
    ensures Signal(a + b) == Signal(a) + Signal(b)
  {
    if a != [] {
      assert (a + b)[1..] == a[1..] + b;
      SignalAppend(a[1..], b);
    } else {
      assert a + b == b;
    }
  }

  /** Tidied output holds no space, hyphen or tilde. */
  lemma TidyClean(s: string)
    ensures forall i | 0 <= i < |Tidy(s)| :: !IsNoise(Tidy(s)[i])
  {
  }

  /** Tidying twice is tidying once. */
  lemma TidyIdempotent(s: string)
    ensures Tidy(Tidy(s)) == Tidy(s)
  {
    TidyClean(s);
    TidyIsSignal(Tidy(s));
    SignalOfClean(Tidy(s));
  }

  /** Noise inserted anywhere is dropped, and other characters stay in order. */
  lemma TidyDropsNoise(a: string, c: char, b: string)
    ensures Tidy(a + [c] + b) == Tidy(a) + (if IsNoise(c) then "" else [c]) + Tidy(b)
  {
    TidyIsSignal(a + [c] + b);
    TidyIsSignal(a);
    TidyIsSignal(b);
    SignalAppend(a + [c], b);
    SignalAppend(a, [c]);
    assert Signal([c]) == (if IsNoise(c) then "" else [c]) + Signal([]);
  }

  // ---------------------------------------------------------------------
  // Classification

  /** The undecorated `classify`: BLAST search, then `best_match`. */
  function RawClassify(search: string -> seq<Description>, s: string): Result<Option<Genotype>, Error>
  {
    BestMatch(search(s))
  }

  /** The undecorated `classify` as the cache calls it, `fn(*args)`. */
  function RawClassifyArgs(search: string -> seq<Description>): seq<string> -> Result<Option<Genotype>, Error>
  {
    args => if |args| == 1 then RawClassify(search, args[0]) else Err(ArityError(|args|))
  }

  /** The cache key `classify(s)` looks up: the hash of the tidied sequence. */
  function ClassifyKey(digest: string -> string, s: string): string
  {
    Cache.ArgsKey(digest, [Tidy(s)])
  }

  /** A sequence and its tidied form hit the same cache entry. */
  lemma ClassifyKeyOfTidy(digest: string -> string, s: string)
    ensures ClassifyKey(digest, Tidy(s)) == ClassifyKey(digest, s)
  {
    TidyIdempotent(s);
  }

  /** `classify_seqs`' verdict on the set of distinct results: its one
      element when there is exactly one, otherwise None. */
  ghost function Unanimous(gts: set<Option<Genotype>>): Option<Genotype>
  {
    if |gts| == 1 then var g :| g in gts; g else None
  }

  lemma SingletonSet(gts: set<Option<Genotype>>, g: Option<Genotype>)
    requires |gts| == 1 && g in gts
    ensures gts == {g}
  {
    assert |gts - {g}| == 0;
  }

  /** A genotype is returned exactly when it is the only distinct result;
      None when None is, when results disagree, or when there are none. */
  lemma UnanimousSpec(gts: set<Option<Genotype>>, g: Genotype)
    ensures Unanimous(gts) == Some(g) <==> gts == {Some(g)}
    ensures Unanimous(gts) == None <==> gts == {None} || |gts| != 1
  {
    if |gts| == 1 {
      var x :| x in gts;
      SingletonSet(gts, x);
    }
  }

  /** Over a list of per-sequence results: a genotype comes out exactly when
      the list is non-empty and every result is that genotype. */
  lemma UnanimousResults(results: seq<Option<Genotype>>, g: Genotype)
    ensures Unanimous(set i | 0 <= i < |results| :: results[i]) == Some(g) <==>
              |results| > 0 && forall i | 0 <= i < |results| :: results[i] == Some(g)
  {
    var gts := set i | 0 <= i < |results| :: results[i];
    UnanimousSpec(gts, g);
    if |results| > 0 && forall i | 0 <= i < |results| :: results[i] == Some(g) {
      assert results[0] in gts;
      assert gts == {Some(g)};
    }
    if gts == {Some(g)} {
      assert Some(g) in gts;
      forall i | 0 <= i < |results| ensures results[i] == Some(g) {
        assert results[i] in gts;
      }
    }
  }

  lemma UnanimousExamples()
    ensures Unanimous({Some(Genotype(2, Some("b")))}) == Some(Genotype(2, Some("b")))
    ensures Unanimous({Some(Genotype(2, Some("b"))), Some(Genotype(3, None))}) == None
    ensures Unanimous({Some(Genotype(2, Some("b"))), None}) == None
    ensures Unanimous({}) == None
  {
  }

  /** The cache keys `classify` looks up for `seqs`, in order. */
  function KeysOf(digest: string -> string, seqs: seq<string>): (keys: seq<string>)
    ensures |keys| == |seqs|
  {
    if seqs == [] then [] else KeysOf(digest, seqs[..|seqs| - 1]) + [ClassifyKey(digest, seqs[|seqs| - 1])]
  }

  /** The raw classifications of the tidied `seqs`, in order. */
  function RawsOf(search: string -> seq<Description>, seqs: seq<string>): (raws: seq<Result<Option<Genotype>, Error>>)
    ensures |raws| == |seqs|
  {
    if seqs == [] then [] else RawsOf(search, seqs[..|seqs| - 1]) + [RawClassify(search, Tidy(seqs[|seqs| - 1]))]
  }

  /** The `j`-th key and raw classification are those of `seqs[j]`. */
  lemma {:induction false} KeysOfIndex(digest: string -> string, seqs: seq<string>, j: nat)
    requires j < |seqs|
    ensures KeysOf(digest, seqs)[j] == ClassifyKey(digest, seqs[j])
    decreases |seqs|
  {
    if j < |seqs| - 1 {
      KeysOfIndex(digest, seqs[..|seqs| - 1], j);
    }
  }

  lemma {:induction false} RawsOfIndex(search: string -> seq<Description>, seqs: seq<string>, j: nat)
    requires j < |seqs|
    ensures RawsOf(search, seqs)[j] == RawClassify(search, Tidy(seqs[j]))
    decreases |seqs|
  {
    var init := seqs[..|seqs| - 1];
    assert RawsOf(search, seqs) == RawsOf(search, init) + [RawClassify(search, Tidy(seqs[|seqs| - 1]))];
    if j < |init| {
      RawsOfIndex(search, init, j);
      assert init[j] == seqs[j];
    }
  }

  /** The module-level `classify`: `tidy_seq_input` around
      `persistent_cache(".genotypes.shelve")` around the raw classifier. */
  class Classifier {
    /** The BLAST search of a (tidied) sequence. */
    const search: string -> seq<Description>
    /** The cache-decorated raw classifier. */
    const classify: Cache.Wrapped<Option<Genotype>, Error>

    ghost predicate Valid()
      reads classify.cache
    {
      classify.cache.Valid() && classify.fn == RawClassifyArgs(search)
    }

    /** The cache key of sequence `s`. */
    function Key(s: string): string
    {
      ClassifyKey(classify.cache.digest, s)
    }

    /** Import-time set-up; `persisted` is what the shelve file holds. */
    constructor (search: string -> seq<Description>, digest: string -> string,
                 persisted: map<string, Option<Genotype>>)
      ensures Valid() && fresh(classify) && fresh(classify.cache)
      ensures this.search == search && classify.cache.digest == digest
      ensures classify.cache.store == persisted && classify.cache.calls == []
    {
      this.search := search;
      var decorator := new Cache.PersistentCache(digest, persisted);
      var wrapped := decorator.Decorate(RawClassifyArgs(search));
      classify := wrapped;
    }

    /** `classify(seq)`: tidy, then look the tidied sequence up in the
        cache, classifying it on a miss. */
    method Classify(s: string) returns (r: Result<Option<Genotype>, Error>)
      requires Valid()
      modifies classify.cache
      ensures Valid()
      ensures Cache.Memoizes(Key(s), [Tidy(s)], RawClassifyArgs(search),
                             old(classify.cache.store), classify.cache.store,
                             old(classify.cache.calls), classify.cache.calls, r)
      ensures Key(s) !in old(classify.cache.store) ==> r == RawClassify(search, Tidy(s))
      ensures r.Ok? ==> Key(s) in classify.cache.store && classify.cache.store[Key(s)] == r.value
      ensures r.Err? ==> Key(s) !in classify.cache.store && r == RawClassify(search, Tidy(s))
      ensures r.Err? ==> classify.cache.store == old(classify.cache.store)
      ensures Cache.Extends(old(classify.cache.store), classify.cache.store)
      ensures classify.cache.store.Keys <= old(classify.cache.store).Keys + {Key(s)}
    {
      var tidied := Tidy(s);
      r := classify.Call([tidied]);
      Cache.GetOnlyGrows(Key(s), [Tidy(s)], RawClassifyArgs(search),
                         old(classify.cache.store), classify.cache.store,
                         old(classify.cache.calls), classify.cache.calls, r);
    }

    /** Two classifications of sequences that differ only in spaces, hyphens
        and tildes: once the first yields a value, the second returns it
        from the cache. */
    method ClassifyIgnoresNoise(s: string, t: string)
      returns (r1: Result<Option<Genotype>, Error>, r2: Result<Option<Genotype>, Error>)
      requires Valid()
      requires Tidy(s) == Tidy(t)
      modifies classify.cache
      ensures Valid()
      ensures r1.Ok? ==> r2 == r1 && |classify.cache.calls| <= |old(classify.cache.calls)| + 1
    {
      r1 := Classify(s);
      r2 := Classify(t);
    }

    /** The generator inside `classify_seqs`: classify every sequence in
        order, stopping at the first error. Each result is the value its key
        holds in the final store; a key that was not cached before holds the
        raw classification of the first sequence with that key; an error is
        the raw classification error of the first sequence that was not
        cached and failed. */
    method ClassifyEach(seqs: seq<string>) returns (r: Result<seq<Option<Genotype>>, Error>)
      requires Valid()
      modifies classify.cache
      ensures Valid()
      ensures Cache.Extends(old(classify.cache.store), classify.cache.store)
      ensures r.Ok? ==> |r.value| == |seqs|
      ensures r.Ok? ==> forall i | 0 <= i < |seqs| ::
                Key(seqs[i]) in classify.cache.store && classify.cache.store[Key(seqs[i])] == r.value[i]
      ensures r.Ok? ==> Cache.FirstReached(KeysOf(classify.cache.digest, seqs), RawsOf(search, seqs),
                                           old(classify.cache.store), classify.cache.store)
      ensures r.Err? ==> exists i | 0 <= i < |seqs| ::
                           && (forall j | 0 <= j < i :: Key(seqs[j]) in classify.cache.store)
                           && Key(seqs[i]) !in classify.cache.store
                           && RawClassify(search, Tidy(seqs[i])) == Err(r.error)
                           && Cache.FirstReached(KeysOf(classify.cache.digest, seqs[..i]), RawsOf(search, seqs[..i]),
                                                 old(classify.cache.store), classify.cache.store)
    {
      ghost var store0 := classify.cache.store;
      var results: seq<Option<Genotype>> := [];
      for i := 0 to |seqs|
        invariant Valid()
        invariant Cache.Extends(store0, classify.cache.store)
        invariant Cache.FirstReached(KeysOf(classify.cache.digest, seqs[..i]), RawsOf(search, seqs[..i]),
                                     store0, classify.cache.store)
        invariant forall k | k in KeysOf(classify.cache.digest, seqs[..i]) :: k in classify.cache.store
        invariant |results| == i
        invariant forall j | 0 <= j < i :: Key(seqs[j]) in classify.cache.store && classify.cache.store[Key(seqs[j])] == results[j]
      {
        ghost var before := classify.cache.store;
        var res := Classify(seqs[i]);
        if res.Err? {
          return Err(res.error);
        }
        Cache.FirstReachedStep(KeysOf(classify.cache.digest, seqs[..i]), RawsOf(search, seqs[..i]),
                               Key(seqs[i]), RawClassify(search, Tidy(seqs[i])), store0, before, classify.cache.store);
        assert seqs[..i + 1][..i] == seqs[..i];
        results := results + [res.value];
        forall j | 0 <= j < i + 1
          ensures Key(seqs[j]) in classify.cache.store && classify.cache.store[Key(seqs[j])] == results[j]
        {
          if j < i {
            assert Key(seqs[j]) in before && before[Key(seqs[j])] == results[j];
          }
        }
      }
      assert seqs[..|seqs|] == seqs;
      r := Ok(results);
    }

    /** `classify_seqs`: classify every sequence (an error propagates),
        collect the distinct results, and return the one result if there is
        exactly one, otherwise None. */
    method ClassifySeqs(seqs: seq<string>) returns (r: Result<Option<Genotype>, Error>)
      requires Valid()
      modifies classify.cache
      ensures Valid()
      ensures Cache.Extends(old(classify.cache.store), classify.cache.store)
      ensures r.Ok? ==> forall i | 0 <= i < |seqs| :: Key(seqs[i]) in classify.cache.store
      ensures r.Ok? ==> Cache.FirstReached(KeysOf(classify.cache.digest, seqs), RawsOf(search, seqs),
                                           old(classify.cache.store), classify.cache.store)
      ensures r.Ok? ==> r.value == Unanimous(set i | 0 <= i < |seqs| :: classify.cache.store[Key(seqs[i])])
      ensures r.Err? ==> exists i | 0 <= i < |seqs| ::
                           && (forall j | 0 <= j < i :: Key(seqs[j]) in classify.cache.store)
                           && Key(seqs[i]) !in classify.cache.store
                           && r == RawClassify(search, Tidy(seqs[i]))
                           && Cache.FirstReached(KeysOf(classify.cache.digest, seqs[..i]), RawsOf(search, seqs[..i]),
                                                 old(classify.cache.store), classify.cache.store)
    {
      var each := ClassifyEach(seqs);
      if each.Err? {
        return Err(each.error);
      }
      var results := each.value;
      var gts := set j | 0 <= j < |results| :: results[j];
      ghost var final := set i | 0 <= i < |seqs| :: classify.cache.store[Key(seqs[i])];
      assert gts == final by {
        forall x | x in final ensures x in gts {
          var i :| 0 <= i < |seqs| && x == classify.cache.store[Key(seqs[i])];
          assert x == results[i];
        }
        forall x | x in gts ensures x in final {
          var i :| 0 <= i < |results| && x == results[i];
          assert x == classify.cache.store[Key(seqs[i])];
        }
      }
      if |gts| == 1 {
        var g :| g in gts;
        SingletonSet(gts, g);
        r := Ok(g);
      } else {
        r := Ok(None);
      }
    }

    /** When none of `seqs` is cached yet and every one classifies as `g`,
        `classify_seqs` returns `g` (two sequences of one subtype give that
        subtype). */
    method ClassifySeqsAgree(seqs: seq<string>, g: Genotype) returns (r: Result<Option<Genotype>, Error>)
      requires Valid() && |seqs| > 0
      requires forall i | 0 <= i < |seqs| :: Key(seqs[i]) !in classify.cache.store
      requires forall i | 0 <= i < |seqs| :: RawsOf(search, seqs)[i] == Ok(Some(g))
      modifies classify.cache
      ensures Valid()
      ensures r == Ok(Some(g))
    {
      ghost var store0 := classify.cache.store;
      r := ClassifySeqs(seqs);
      if r.Err? {
        var i :| 0 <= i < |seqs| && Key(seqs[i]) !in classify.cache.store && r == RawClassify(search, Tidy(seqs[i]));
        RawsOfIndex(search, seqs, i);
        assert false;
      }
      ghost var store := classify.cache.store;
      Cache.FirstReachedUniform(KeysOf(classify.cache.digest, seqs), RawsOf(search, seqs), store0, store, Some(g));
      ghost var gts := set i | 0 <= i < |seqs| :: store[Key(seqs[i])];
      forall x | x in gts ensures x == Some(g) {
        var i :| 0 <= i < |seqs| && x == store[Key(seqs[i])];
        assert Key(seqs[i]) in store && Key(seqs[i]) !in store0;
      }
      assert store[Key(seqs[0])] in gts;
      assert gts == {Some(g)};
    }
  }
}

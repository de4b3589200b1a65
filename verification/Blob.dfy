/** The block upload of blob.c: blocks are put one by one as a callback delivers them, and a list of their ids commits
    them. */
module Blob {
  import opened Basics
  import Base64
  import EdmNumbers
  import Rfc4648

  type bytes = seq<int>

  // What the callback answers; NoData for a null source or a size of zero.
  datatype Answer = Abort | NoData | Data(content: bytes)

  // A PUT request with the status that came back, or none if the transport failed.
  datatype Exchange =
    | PutBlock(path: string, content: bytes, status: Option<nat>)
    | PutList(path: string, xml: string, status: Option<nat>)

  datatype Result = Ok | Error | InvalidArg | HttpError | Aborted

  // ---- block ids -------------------------------------------------------------------------------------------------

  function Spaces(n: nat): string
  {
    if n == 0 then "" else " " + Spaces(n - 1)
  }

  // %6u pads with spaces, not with the zeros that the comment beside it promises.
  function SixWide(id: nat): string
  {
    var d := EdmNumbers.Decimal(id);
    Spaces(if |d| < 6 then 6 - |d| else 0) + d
  }

  function Octets(s: string): (b: seq<Rfc4648.byte>)
    ensures |b| == |s|
  {
    if s == "" then [] else [s[0] as int % 256] + Octets(s[1..])
  }

  function BlockId(id: nat): string
  {
    Rfc4648.Encode(Octets(SixWide(id)), false)
  }

  lemma {:induction false} SpacesThenDigits(n: nat, m: nat, d: string, e: string)
    requires d != "" && e != "" && d[0] != ' ' && e[0] != ' ' && Spaces(n) + d == Spaces(m) + e
    ensures d == e
    decreases n
  {
    StartsWithSpace(n, d);
    StartsWithSpace(m, e);
    if n == 0 {
      assert Spaces(n) + d == d && Spaces(m) + e == e;
    } else {
      assert (Spaces(n) + d)[1..] == Spaces(n - 1) + d && (Spaces(m) + e)[1..] == Spaces(m - 1) + e;
      SpacesThenDigits(n - 1, m - 1, d, e);
    }
  }

  lemma StartsWithSpace(n: nat, d: string)
    requires d != "" && d[0] != ' '
    ensures (Spaces(n) + d)[0] == ' ' <==> n > 0
  {
    if n == 0 {
      assert Spaces(n) + d == d;
    }
  }

  // Below a million a block id takes exactly the six characters that sprintf is expected to report.
  lemma SixWideIsSix(id: nat)
    requires id < 1000000
    ensures |SixWide(id)| == 6
  {
    assert EdmNumbers.Pow10(6) == 1000000;
    EdmNumbers.DecimalFits(id, 6);
    SpacesLength(6 - |EdmNumbers.Decimal(id)|);
    hide EdmNumbers.Decimal, Spaces;
  }

  lemma {:induction false} SpacesLength(n: nat)
    ensures |Spaces(n)| == n
  {
    if n > 0 {
      SpacesLength(n - 1);
    }
  }

  // n at the right end of w places, or just spaces for 0.
  ghost function Head(n: nat, w: nat): string
  {
    if n == 0 then Spaces(w)
    else Spaces(if |EdmNumbers.Decimal(n)| < w then w - |EdmNumbers.Decimal(n)| else 0) + EdmNumbers.Decimal(n)
  }

  lemma LastDigitOf(n: nat)
    ensures EdmNumbers.Decimal(n) == (if n < 10 then "" else EdmNumbers.Decimal(n / 10)) + ["0123456789"[n % 10]]
  {
    EdmNumbers.DigitIs(n % 10);
  }

  lemma {:induction false} OneSpaceMore(w: nat)
    ensures Spaces(w + 1) == Spaces(w) + " "
  {
    if w > 0 {
      OneSpaceMore(w - 1);
    }
  }

  lemma HeadStep(n: nat, w: nat)
    requires w >= 1
    ensures Head(n, w) == Head(n / 10, w - 1) + [if n == 0 then ' ' else "0123456789"[n % 10]]
  {
    hide EdmNumbers.Decimal, Spaces;
    OneSpaceMore(w - 1);
    LastDigitOf(n);
    if 0 < n < 10 {
      assert |EdmNumbers.Decimal(n)| == 1;
    } else if n >= 10 {
      assert |EdmNumbers.Decimal(n)| == |EdmNumbers.Decimal(n / 10)| + 1;
    }
  }

  // The text itself, place by place.
  lemma SixWideIs(id: nat)
    requires id < 1000000
    ensures SixWide(id) == [if id < 100000 then ' ' else "0123456789"[id / 100000],
                            if id < 10000 then ' ' else "0123456789"[id / 10000 % 10],
                            if id < 1000 then ' ' else "0123456789"[id / 1000 % 10],
                            if id < 100 then ' ' else "0123456789"[id / 100 % 10],
                            if id < 10 then ' ' else "0123456789"[id / 10 % 10],
                            "0123456789"[id % 10]]
  {
    hide EdmNumbers.Decimal, Spaces, Head, SixWide;
    var a, b, c, d, e := id / 10, id / 100, id / 1000, id / 10000, id / 100000;
    ByTens(id);
    SixWideHead(id);
    HeadStep(a, 5);
    HeadStep(b, 4);
    HeadStep(c, 3);
    HeadStep(d, 2);
    HeadStep(e, 1);
    NoHead();
  }

  lemma ByTens(id: nat)
    requires id < 1000000
    ensures id / 10 / 10 == id / 100 && id / 100 / 10 == id / 1000 && id / 1000 / 10 == id / 10000
    ensures id / 10000 / 10 == id / 100000 < 10 && id / 100000 / 10 == 0
  {
  }

  lemma SixWideHead(id: nat)
    ensures id < 1000000 ==> SixWide(id) == Head(id / 10, 5) + ["0123456789"[id % 10]]
  {
    hide EdmNumbers.Decimal, Spaces;
    LastDigitOf(id);
    if 10 <= id < 1000000 {
      SixWideIsSix(id);
      assert |EdmNumbers.Decimal(id)| == |EdmNumbers.Decimal(id / 10)| + 1;
    }
  }

  lemma NoHead()
    ensures Head(0, 0) == ""
  {
  }

  predicate Ascii(s: string)
  {
    forall i :: 0 <= i < |s| ==> s[i] as int < 128
  }

  lemma {:induction false} OctetsTell(s: string, t: string)
    requires Ascii(s) && Ascii(t) && Octets(s) == Octets(t)
    ensures s == t
    decreases |s|
  {
    if s != "" {
      assert |t| == |s|;
      assert Octets(s)[0] == Octets(t)[0] && Octets(s)[1..] == Octets(t)[1..];
      OctetsTell(s[1..], t[1..]);
      assert s == [s[0]] + s[1..] && t == [t[0]] + t[1..];
    }
  }

  lemma {:induction false} OctetsAt(s: string, k: nat)
    requires Ascii(s) && k < |s|
    ensures Octets(s)[k] == s[k] as int
  {
    if k > 0 {
      OctetsAt(s[1..], k - 1);
    }
  }

  // Whoever decodes an id reads that text in it.
  lemma BlockIdReads(id: nat, k: nat)
    requires k < |SixWide(id)|
    ensures var b := Base64.Decoded(Base64.Take(BlockId(id))); |b| == |SixWide(id)| && b[k] == SixWide(id)[k] as int
  {
    hide Rfc4648.Encode, Octets, SixWide, Ascii;
    Base64.DecodedUndoesEncode(Octets(SixWide(id)));
    SixWideIsAscii(id);
    OctetsAt(SixWide(id), k);
  }

  // Different blocks have different ids.
  lemma BlockIdsDiffer(i: nat, j: nat)
    requires BlockId(i) == BlockId(j)
    ensures i == j
  {
    hide Rfc4648.Encode, Octets, SixWide, Ascii;
    Base64.DecodedUndoesEncode(Octets(SixWide(i)));
    Base64.DecodedUndoesEncode(Octets(SixWide(j)));
    SixWideIsAscii(i);
    SixWideIsAscii(j);
    OctetsTell(SixWide(i), SixWide(j));
    SixWideTells(i, j);
  }

  lemma SixWideTells(i: nat, j: nat)
    requires SixWide(i) == SixWide(j)
    ensures i == j
  {
    hide EdmNumbers.Decimal, EdmNumbers.Value, Spaces;
    var d, e := EdmNumbers.Decimal(i), EdmNumbers.Decimal(j);
    assert d[0] in d && e[0] in e;
    SpacesThenDigits(if |d| < 6 then 6 - |d| else 0, if |e| < 6 then 6 - |e| else 0, d, e);
    EdmNumbers.ValueOfDecimal(i);
    EdmNumbers.ValueOfDecimal(j);
  }

  lemma SixWideIsAscii(i: nat)
    ensures Ascii(SixWide(i))
  {
    hide EdmNumbers.Decimal;
    var d := EdmNumbers.Decimal(i);
    assert forall k :: 0 <= k < |d| ==> d[k] in d;
    SpacesAreAscii(if |d| < 6 then 6 - |d| else 0);
  }

  lemma {:induction false} SpacesAreAscii(n: nat)
    ensures Ascii(Spaces(n))
  {
    if n > 0 {
      SpacesAreAscii(n - 1);
    }
  }

  // ---- the list of blocks ----------------------------------------------------------------------------------------

  const HEADER := "<?xml version=\"1.0\" encoding=\"utf-8\"?>\r\n<BlockList>"

  function Latest(id: nat): string { "<Latest>" + BlockId(id) + "</Latest>" }

  // The list of the first n ids, in order.
  function ListTo(n: nat): string
  {
    if n == 0 then HEADER else ListTo(n - 1) + Latest(n - 1)
  }

  lemma Entered(list: string, id: nat)
    ensures list + "<Latest>" + BlockId(id) + "</Latest>" == list + Latest(id)
  {
    hide BlockId;
  }

  // ---- reading a list back ---------------------------------------------------------------------------------------

  function UpToAngle(s: string): (t: string)
    ensures |t| <= |s|
  {
    if s == "" || s[0] == '<' then "" else [s[0]] + UpToAngle(s[1..])
  }

  // The ids between the tags, as a reader of the list finds them, and what is left behind them.
  function Ids(xml: string): (seq<string>, string)
    decreases |xml|
  {
    if |xml| < 17 || xml[..8] != "<Latest>" then ([], xml)
    else
      var id := UpToAngle(xml[8..]);
      if 17 + |id| > |xml| || xml[8 + |id|..17 + |id|] != "</Latest>" then ([], xml)
      else ([id] + Ids(xml[17 + |id|..]).0, Ids(xml[17 + |id|..]).1)
  }

  // A whole list.
  function ListedIds(xml: string): Option<seq<string>>
  {
    var head := "<?xml version=\"1.0\" encoding=\"utf-8\"?>\r\n<BlockList>";
    if |xml| < |head| || xml[..|head|] != head || Ids(xml[|head|..]).1 != "</BlockList>" then None
    else Some(Ids(xml[|head|..]).0)
  }

  function Entries(k: nat, n: nat): string
    requires k <= n
    decreases n - k
  {
    if k == n then "" else Latest(k) + Entries(k + 1, n)
  }

  lemma {:induction false} EntriesGrow(k: nat, n: nat)
    requires k <= n
    ensures Entries(k, n + 1) == Entries(k, n) + Latest(n)
    decreases n - k
  {
    hide Latest;
    if k < n {
      EntriesGrow(k + 1, n);
      Regrouped(Latest(k), Entries(k + 1, n), Latest(n));
    } else {
      assert Entries(n + 1, n + 1) == "";
    }
  }

  lemma {:induction false} ListIsEntries(n: nat)
    ensures ListTo(n) == HEADER + Entries(0, n)
  {
    hide Latest;
    if n > 0 {
      ListIsEntries(n - 1);
      EntriesGrow(0, n - 1);
      Regrouped(HEADER, Entries(0, n - 1), Latest(n - 1));
    }
  }

  lemma {:induction false} UpToTheTag(id: string, rest: string)
    requires '<' !in id && rest != "" && rest[0] == '<'
    ensures UpToAngle(id + rest) == id
  {
    if id == "" {
      assert id + rest == rest;
    } else {
      assert id[0] in id;
      assert (id + rest)[1..] == id[1..] + rest;
      UpToTheTag(id[1..], rest);
    }
  }

  lemma {:induction false} NoAngleInBase64(b: seq<Rfc4648.byte>)
    ensures '<' !in Rfc4648.Encode(b, false)
  {
    forall n: nat, k: nat | k < 4
      ensures Rfc4648.DigitOf(n, k, false) != '<'
    {
      Rfc4648.AlphabetInRanges(Rfc4648.Sextet(n, k), false);
    }
    hide Rfc4648.DigitOf;
    if |b| >= 3 {
      NoAngleInBase64(b[3..]);
    }
  }

  lemma OneEntry(k: nat, rest: string)
    ensures Ids(Latest(k) + rest) == ([BlockId(k)] + Ids(rest).0, Ids(rest).1)
  {
    hide BlockId;
    var id := BlockId(k);
    IdHasNoAngle(k);
    var xml := Latest(k) + rest;
    assert xml[..8] == "<Latest>";
    assert xml[8..] == id + ("</Latest>" + rest);
    UpToTheTag(id, "</Latest>" + rest);
    assert xml[8 + |id|..17 + |id|] == "</Latest>";
    assert xml[17 + |id|..] == rest;
  }

  lemma IdHasNoAngle(k: nat)
    ensures '<' !in BlockId(k)
  {
    NoAngleInBase64(Octets(SixWide(k)));
  }

  function IdRange(k: nat, n: nat): seq<string>
    requires k <= n
    decreases n - k
  {
    if k == n then [] else [BlockId(k)] + IdRange(k + 1, n)
  }

  lemma {:induction false} IdRangeAt(k: nat, n: nat, i: nat)
    requires k + i < n
    ensures |IdRange(k, n)| == n - k && IdRange(k, n)[i] == BlockId(k + i)
    decreases n - k
  {
    hide BlockId;
    if k + 1 < n {
      IdRangeAt(k + 1, n, if i == 0 then 0 else i - 1);
    } else {
      assert IdRange(n, n) == [];
    }
  }

  lemma {:induction false} EntriesReadBack(k: nat, n: nat)
    requires k <= n
    ensures Ids(Entries(k, n) + "</BlockList>") == (IdRange(k, n), "</BlockList>")
    decreases n - k
  {
    hide BlockId, Latest;
    if k == n {
      assert Entries(k, n) + "</BlockList>" == "</BlockList>";
    } else {
      EntriesReadBack(k + 1, n);
      OneEntry(k, Entries(k + 1, n) + "</BlockList>");
      Regrouped(Latest(k), Entries(k + 1, n), "</BlockList>");
    }
  }

  lemma NoIds()
    ensures IdRange(0, 0) == []
  {}

  // A committed list, read as XML, names the blocks 0 to n - 1, each once and in order.
  lemma ListReadsBack(n: nat)
    ensures var ids := ListedIds(ListTo(n) + "</BlockList>");
            && ids.Some? && |ids.value| == n
            && (forall k :: 0 <= k < n ==> ids.value[k] == BlockId(k))
            && (forall j, k :: 0 <= j < k < n ==> ids.value[j] != ids.value[k])
  {
    hide Entries, Ids, ListTo, BlockId, IdRange;
    ListIsEntries(n);
    assert (ListTo(n) + "</BlockList>")[|HEADER|..] == Entries(0, n) + "</BlockList>";
    assert (ListTo(n) + "</BlockList>")[..|HEADER|] == HEADER;
    EntriesReadBack(0, n);
    forall i | 0 <= i < n
      ensures |IdRange(0, n)| == n && IdRange(0, n)[i] == BlockId(i)
    {
      IdRangeAt(0, n, i);
    }
    if n == 0 {
      NoIds();
    } else {
      IdRangeAt(0, n, 0);
    }
    forall j, k | 0 <= j < k < n
      ensures BlockId(j) != BlockId(k)
    {
      if BlockId(j) == BlockId(k) {
        BlockIdsDiffer(j, k);
      }
    }
  }

  // ---- the upload ------------------------------------------------------------------------------------------------

  function BlockPath(base: string, id: nat): string { base + "&comp=block&blockid=" + BlockId(id) }

  // The k-th exchange puts what the k-th call of the callback delivered, under the k-th id.
  ghost predicate Puts(base: string, es: seq<Exchange>, answers: seq<Answer>)
  {
    |es| <= |answers| && forall k :: 0 <= k < |es| ==>
      es[k].PutBlock? && es[k].path == BlockPath(base, k) &&
      answers[k] == Data(es[k].content) && 0 < |es[k].content| <= 4_194_304
  }

  // The ids are those the blocks were put under, in order and pairwise distinct.
  ghost predicate NamesTheBlocks(base: string, es: seq<Exchange>, ids: Option<seq<string>>)
  {
    && ids.Some? && |ids.value| == |es|
    && (forall k :: 0 <= k < |es| ==> es[k].PutBlock? && es[k].path == base + "&comp=block&blockid=" + ids.value[k])
    && (forall j, k :: 0 <= j < k < |es| ==> ids.value[j] != ids.value[k])
  }

  lemma ListNames(base: string, es: seq<Exchange>, answers: seq<Answer>)
    requires Puts(base, es, answers)
    ensures NamesTheBlocks(base, es, ListedIds(ListTo(|es|) + "</BlockList>"))
  {
    hide ListedIds, ListTo, BlockId;
    ListReadsBack(|es|);
  }

  ghost predicate Accepted(e: Exchange)
  {
    e.status.Some? && e.status.value < 300
  }

  ghost predicate AllAccepted(es: seq<Exchange>)
  {
    forall k :: 0 <= k < |es| ==> Accepted(es[k])
  }

  ghost predicate TooMuch(answers: seq<Answer>)
    requires answers != []
  {
    var last := answers[|answers| - 1];
    last.Data? && (|last.content| > 4_194_304 || |answers| > 50000)
  }

  class Upload {
    var blockIDList: string
    var httpStatus: nat

    // What the callback has answered, what has been exchanged, and how often memory has been refused.
    ghost var answers: seq<Answer>
    ghost var exchanges: seq<Exchange>
    ghost var refused: nat

    constructor ()
      ensures answers == [] && exchanges == [] && refused == 0
    {
      blockIDList, httpStatus, answers, exchanges, refused := "", 0, [], [], 0;
    }

    // The callback: any answer at all.
    method GetData() returns (a: Answer)
      modifies this`answers
      ensures answers == old(answers) + [a]
      ensures a.Data? ==> a.content != []
    {
      a := *;
      if a.Data? && a.content == [] {
        a := NoData;
      }
      answers := answers + [a];
    }

    // Creating or extending a string or a buffer.
    method Obtain() returns (ok: bool)
      modifies this`refused
      ensures if ok then refused == old(refused) else refused > old(refused)
    {
      ok := *;
      if !ok {
        refused := refused + 1;
      }
    }

    method Concat(s: string) returns (ok: bool)
      modifies this`refused, this`blockIDList
      ensures if ok then refused == old(refused) && blockIDList == old(blockIDList) + s else refused > old(refused)
    {
      ok := Obtain();
      if ok {
        blockIDList := blockIDList + s;
      }
    }

    // A PUT with any outcome at all.
    method Execute(request: Exchange) returns (ok: bool)
      modifies this`httpStatus, this`exchanges
      ensures exchanges == old(exchanges) + [request.(status := if ok then Some(httpStatus) else None)]
    {
      ok := *;
      if ok {
        httpStatus := *;
      }
      exchanges := exchanges + [request.(status := if ok then Some(httpStatus) else None)];
    }

    method UploadBlock(relativePath: string, content: bytes, blockID: nat) returns (result: Result)
      modifies this`blockIDList, this`httpStatus, this`exchanges, this`refused
      ensures result.Ok? || result.HttpError? || result.Error?
      ensures result.Ok? || result.HttpError? ==> refused == old(refused)
      ensures result.Ok? || result.HttpError? ==>
                exchanges == old(exchanges) +
                  [PutBlock(BlockPath(relativePath, blockID), content, if result.Ok? then Some(httpStatus) else None)]
      ensures result.Ok? ==> blockIDList == old(blockIDList) + Latest(blockID)
      ensures result.Error? ==> exchanges == old(exchanges) && (refused > old(refused) || blockID >= 1000000)
    {
      hide BlockId, SixWide;
      var list := blockIDList;
      if blockID < 1000000 {
        SixWideIsSix(blockID);
      }
      if |SixWide(blockID)| != 6 {
        return Error;
      }
      var ok := Obtain();
      if !ok {
        return Error;
      }
      var blockIdString := BlockId(blockID);
      ok := AddToList(blockIdString);
      if !ok {
        return Error;
      }
      Entered(list, blockID);
      var path;
      ok, path := MakePath(relativePath, "&comp=block&blockid=", blockIdString);
      if !ok {
        return Error;
      }
      ok := Execute(PutBlock(path, content, None));
      result := if ok then Ok else HttpError;
    }

    method AddToList(blockIdString: string) returns (ok: bool)
      modifies this`refused, this`blockIDList
      ensures if ok then refused == old(refused) && blockIDList == old(blockIDList) + "<Latest>" + blockIdString + "</Latest>"
              else refused > old(refused)
    {
      ok := Concat("<Latest>");
      if ok {
        ok := Concat(blockIdString);
        if ok {
          ok := Concat("</Latest>");
        }
      }
    }

    // A string constructed from the base and extended by the tails that are not empty.
    method MakePath(relativePath: string, tail: string, id: string) returns (ok: bool, path: string)
      modifies this`refused
      ensures if ok then refused == old(refused) && path == relativePath + tail + id else refused > old(refused)
    {
      path := relativePath;
      ok := Obtain();
      if ok {
        path := relativePath + tail;
        ok := Obtain();
        if ok && id != "" {
          path := path + id;
          ok := Obtain();
        }
      }
    }

    // One block that the callback delivered.
    method PutNext(relativePath: string, content: bytes, blockID: nat) returns (result: Result, isError: bool)
      modifies this`blockIDList, this`httpStatus, this`exchanges, this`refused
      ensures result.InvalidArg? <==> |content| > 4_194_304 || blockID >= 50000
      ensures !result.Aborted?
      ensures result.InvalidArg? || result.Error? ==> isError && exchanges == old(exchanges)
      ensures result.InvalidArg? ==> refused == old(refused)
      ensures result.Error? ==> refused > old(refused)
      ensures result.Ok? || result.HttpError? ==> refused == old(refused)
      ensures result.Ok? || result.HttpError? ==>
                exchanges == old(exchanges) +
                  [PutBlock(BlockPath(relativePath, blockID), content, if result.Ok? then Some(httpStatus) else None)]
      ensures !isError <==> result.Ok? && httpStatus < 300
      ensures result.Ok? ==> blockIDList == old(blockIDList) + Latest(blockID)
    {
      hide BlockPath, Latest;
      isError := false;
      if |content| > 4_194_304 {
        return InvalidArg, true;
      } else if blockID >= 50000 {
        return InvalidArg, true;
      }
      var ok := Obtain();
      if !ok {
        result, isError := Error, true;
      } else {
        result := UploadBlock(relativePath, content, blockID);
      }
      if result != Ok || httpStatus >= 300 {
        isError := true;
      }
    }

    method Commit(relativePath: string) returns (result: Result)
      modifies this`blockIDList, this`httpStatus, this`exchanges, this`refused
      ensures result.Ok? || result.HttpError? || result.Error?
      ensures result.Error? ==> refused > old(refused) && exchanges == old(exchanges)
      ensures !result.Error? ==> refused == old(refused)
      ensures !result.Error? ==>
                exchanges == old(exchanges) +
                  [PutList(relativePath + "&comp=blocklist", old(blockIDList) + "</BlockList>",
                           if result.Ok? then Some(httpStatus) else None)]
    {
      var ok := Concat("</BlockList>");
      if !ok {
        return Error;
      }
      var path;
      ok, path := MakePath(relativePath, "&comp=blocklist", "");
      if !ok {
        return Error;
      }
      ok := Obtain();
      if !ok {
        return Error;
      }
      assert path == relativePath + "&comp=blocklist";
      ok := Execute(PutList(path, blockIDList, None));
      result := if ok then Ok else HttpError;
    }

    // The callback is asked again and again; whatever it answers, this ends.
    method UploadBlocks(relativePath: string) returns (result: Result, isError: bool)
      requires Going(relativePath, 0, answers, exchanges, refused, blockIDList)
      modifies this
      ensures Over(relativePath, isError, result, answers, exchanges, refused, blockIDList)
    {
      hide Going, Over, BlockPath, Latest;
      var blockID := 0;
      var uploadOneMoreBlock := true;
      isError, result := false, Ok;
      BlocksLeft(relativePath, blockID, answers, exchanges, refused, blockIDList);
      while uploadOneMoreBlock && !isError
        invariant uploadOneMoreBlock && !isError ==>
                    blockID <= 50000 && Going(relativePath, blockID, answers, exchanges, refused, blockIDList)
        invariant !(uploadOneMoreBlock && !isError) ==> Over(relativePath, isError, result, answers, exchanges, refused, blockIDList)
        decreases if isError then 0 else 1, 50000 - blockID, uploadOneMoreBlock
      {
        ghost var heard, es, list := answers, exchanges, blockIDList;
        BlocksLeft(relativePath, blockID, heard, es, refused, list);
        var a := GetData();
        match a {
          case Abort =>
            uploadOneMoreBlock, result := false, Aborted;
            CallbackEnds(relativePath, blockID, heard, a, es, list);
          case NoData =>
            uploadOneMoreBlock, result := false, Ok;
            CallbackEnds(relativePath, blockID, heard, a, es, list);
          case Data(content) =>
            result, isError := PutNext(relativePath, content, blockID);
            if result.Ok? || result.HttpError? {
              BlockPut(relativePath, blockID, heard, content, es, list, if result.Ok? then Some(httpStatus) else None, blockIDList);
            } else {
              BlockNotPut(relativePath, blockID, heard, content, es, list, result, refused, blockIDList);
            }
            blockID := blockID + 1;
        }
      }
    }

    /** The whole upload below the HTTP handle: n is the number of blocks put. The list is committed, once and last, if and
        only if the callback ended normally, every block was accepted and no memory was refused; otherwise nothing follows
        the blocks. */
    method UploadMultipleBlocks(relativePath: string) returns (result: Result, ghost n: nat)
      requires answers == [] && exchanges == [] && refused == 0
      modifies this
      ensures n <= 50000 && n <= |exchanges| <= n + 1 && Puts(relativePath, exchanges[..n], answers)
      ensures |exchanges| == n + 1 <==>
              answers != [] && answers[|answers| - 1] == NoData && AllAccepted(exchanges[..n]) && refused == 0
      ensures |exchanges| == n + 1 ==>
                exchanges[n].PutList? && exchanges[n].path == relativePath + "&comp=blocklist" &&
                exchanges[n].xml == ListTo(n) + "</BlockList>" && |answers| == n + 1
      ensures |exchanges| == n + 1 ==> NamesTheBlocks(relativePath, exchanges[..n], ListedIds(exchanges[n].xml))
      ensures result.Aborted? <==> answers != [] && answers[|answers| - 1] == Abort
      ensures result.InvalidArg? <==> answers != [] && TooMuch(answers)
      ensures result.Error? <==> answers != [] && refused > 0
      ensures result.HttpError? <==> answers == [] || (exchanges != [] && exchanges[|exchanges| - 1].status == None)
    {
      hide Going, Over, ListTo, Puts, AllAccepted, TooMuch, BlockPath, NamesTheBlocks, ListedIds;
      n := 0;
      Begun(relativePath);
      var ok := Obtain();
      if !ok {
        assert exchanges[..0] == [];
        return HttpError, 0;
      }
      blockIDList := HEADER;
      var isError;
      result, isError := UploadBlocks(relativePath);
      n := |exchanges|;
      ghost var es := exchanges;
      LoopOver(relativePath, isError, result, answers, exchanges, refused, blockIDList);
      assert exchanges[..n] == exchanges;
      if !isError && result == Ok {
        ListNames(relativePath, es, answers);
        result := Commit(relativePath);
        assert exchanges[..n] == es;
      }
    }
  }

  // ---- the bookkeeping of the loop ---------------------------------------------------------------------------------

  // While blocks still come in: so far all of them were put and accepted.
  ghost predicate Going(base: string, n: nat, answers: seq<Answer>, es: seq<Exchange>, refused: nat, list: string)
  {
    && n == |answers| == |es| && n <= 50000 && refused == 0
    && Puts(base, es, answers) && AllAccepted(es) && list == ListTo(n)
  }

  // The loop is over: ended by the callback, or by an error.
  ghost predicate Over(base: string, isError: bool, result: Result,
                       answers: seq<Answer>, es: seq<Exchange>, refused: nat, list: string)
  {
    && answers != [] && |es| <= 50000 && Puts(base, es, answers)
    && var last := answers[|answers| - 1];
    && (isError <==> last.Data?)
    && (!isError ==>
          AllAccepted(es) && |answers| == |es| + 1 && refused == 0 && list == ListTo(|es|) &&
          result == (if last.Abort? then Aborted else Ok))
    && (isError ==>
          && !result.Aborted? && (result.InvalidArg? <==> TooMuch(answers)) && (result.Error? <==> refused > 0)
          && (|es| == if result.InvalidArg? || result.Error? then |answers| - 1 else |answers|)
          && (result.InvalidArg? || result.Error? ==> AllAccepted(es))
          && (result.HttpError? ==> es[|es| - 1].status == None)
          && (result.Ok? ==> es[|es| - 1].status.Some? && es[|es| - 1].status.value >= 300))
  }

  lemma Begun(base: string)
    ensures Going(base, 0, [], [], 0, HEADER) && Puts(base, [], [])
  {}

  lemma BlocksLeft(base: string, n: nat, answers: seq<Answer>, es: seq<Exchange>, refused: nat, list: string)
    requires Going(base, n, answers, es, refused, list)
    ensures n <= 50000 && refused == 0
  {}

  lemma CallbackEnds(base: string, n: nat, answers: seq<Answer>, a: Answer, es: seq<Exchange>, list: string)
    requires Going(base, n, answers, es, 0, list) && !a.Data?
    ensures Over(base, false, if a.Abort? then Aborted else Ok, answers + [a], es, 0, list)
  {}

  lemma BlockPut(base: string, n: nat, answers: seq<Answer>, content: bytes, es: seq<Exchange>, list: string,
                 status: Option<nat>, after: string)
    requires Going(base, n, answers, es, 0, list) && n < 50000 && 0 < |content| <= 4_194_304
    requires status.Some? ==> after == list + Latest(n)
    ensures var es' := es + [PutBlock(BlockPath(base, n), content, status)];
            if status.Some? && status.value < 300 then Going(base, n + 1, answers + [Data(content)], es', 0, after)
            else Over(base, true, if status.Some? then Ok else HttpError, answers + [Data(content)], es', 0, after)
  {
    hide BlockPath, Latest;
  }

  lemma BlockNotPut(base: string, n: nat, answers: seq<Answer>, content: bytes, es: seq<Exchange>, list: string,
                    result: Result, refused: nat, after: string)
    requires Going(base, n, answers, es, 0, list) && content != [] && (result.InvalidArg? || result.Error?)
    requires result.InvalidArg? <==> |content| > 4_194_304 || n >= 50000
    requires result.Error? <==> refused > 0
    ensures Over(base, true, result, answers + [Data(content)], es, refused, after)
  {
    hide BlockPath, Latest, ListTo;
  }

  lemma LoopOver(base: string, isError: bool, result: Result, answers: seq<Answer>, es: seq<Exchange>, refused: nat, list: string)
    requires Over(base, isError, result, answers, es, refused, list)
    ensures answers != [] && |es| <= 50000 && Puts(base, es, answers)
    ensures !isError && result.Ok? <==> answers[|answers| - 1] == NoData && AllAccepted(es) && refused == 0
    ensures !isError && result.Ok? ==> list == ListTo(|es|) && |answers| == |es| + 1
    ensures result.Aborted? <==> answers[|answers| - 1] == Abort
    ensures result.InvalidArg? <==> TooMuch(answers)
    ensures result.Error? <==> refused > 0
    ensures result.HttpError? ==> es != [] && es[|es| - 1].status == None
    ensures !result.HttpError? && es != [] ==> es[|es| - 1].status.Some?
  {
    hide BlockPath, ListTo;
    if es != [] {
      assert AllAccepted(es) ==> Accepted(es[|es| - 1]);
    }
  }
}

/** What the word/byte read fallback of hw_flash_read costs and covers. */
module Fallback {
  import opened Words
  import opened Nor
  import opened FlashSpec

  /** The accesses cover [lo, hi) in order, without a gap or an overlap. */
  ghost predicate Tiles(es: seq<Event>, lo: nat, hi: nat)
    decreases |es|
  {
    if es == [] then lo == hi
    else es[0].Load? && es[0].addr == lo && es[0].width > 0 && Tiles(es[1..], lo + es[0].width, hi)
  }

  /** The bytes before the first word boundary, and those after the last. */
  function Ragged(addr: nat, len: nat): nat {
    var head := if addr % 4 == 0 then 0 else Min(len, 4 - addr % 4);
    head + (len - head) % 4
  }

  lemma RaggedStep(addr: nat, len: nat)
    ensures Ragged(addr, len) <= 6 && Ragged(addr, len) <= len && (len - Ragged(addr, len)) % 4 == 0
    ensures addr % 4 == 0 && len % 4 == 0 ==> Ragged(addr, len) == 0
    ensures addr % 4 == 0 && len >= 4 ==> Ragged(addr + 4, len - 4) == Ragged(addr, len) <= len - 4
    ensures len > 0 && !(addr % 4 == 0 && len >= 4) ==>
              Ragged(addr + 1, len - 1) + 1 == Ragged(addr, len)
  {
  }

  lemma OneMoreLoad(addr: nat, width: nat, rest: seq<Event>)
    ensures TallyOf([Load(addr, width)] + rest).byteLoads
            == (if width == 1 then 1 else 0) + TallyOf(rest).byteLoads
  {
    hide TallyOf;
    TallyOfOne(Load(addr, width));
    TallyConcat([Load(addr, width)], rest);
  }

  /**
    With read32 available the fallback spends at most six byte loads, the ragged ends; the body
    goes word by word, and together the loads cover exactly the requested bytes.
   */
  lemma {:induction false} LoadsCost(b: Board, addr: nat, len: nat)
    requires b.ops.read32 && (b.ops.read8 || (addr % 4 == 0 && len % 4 == 0))
    ensures Tiles(Loads(b, addr, len), addr, addr + len)
    ensures TallyOf(Loads(b, addr, len)).byteLoads == Ragged(addr, len) <= 6
    ensures |Loads(b, addr, len)| == Ragged(addr, len) + (len - Ragged(addr, len)) / 4
    decreases len
  {
    hide TallyOf, Tally.Plus, Ragged, Loads;
    TallyOfNone();
    LoadsUnfold(b, addr, len);
    RaggedStep(addr, len);
    if len == 0 {
    } else {
      var width := if addr % 4 == 0 && len >= 4 then 4 else 1;
      var rest := Loads(b, addr + width, len - width);
      LoadsCost(b, addr + width, len - width);
      OneMoreLoad(addr, width, rest);
      assert ([Load(addr, width)] + rest)[1..] == rest;
    }
  }
}

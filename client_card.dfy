/**
 * The client card of the dashboard: a card showing one client in one of the
 * three languages at a time, with arrows that cycle the language forwards
 * (ES, EN, PT, ES, ...) and backwards.
 */
module ClientCard {
  import opened Base

  /** The language after the "next" arrow: ES to EN to PT and back to ES. */
  function NextLang(l: Lang): (r: Lang)
    ensures r != l
  {
    if l == Es then En else if l == En then Pt else Es
  }

  /** The language after the "previous" arrow: ES to PT to EN and back to ES. */
  function PrevLang(l: Lang): (r: Lang)
    ensures r != l
  {
    if l == Es then Pt else if l == Pt then En else Es
  }

  /** The arrows undo each other. */
  lemma PrevUndoesNext(l: Lang)
    ensures PrevLang(NextLang(l)) == l
    ensures NextLang(PrevLang(l)) == l
  {
  }

  /** Three presses of "next" come back to the starting language, after showing every language once. */
  lemma NextCycles(l: Lang)
    ensures NextLang(NextLang(NextLang(l))) == l
    ensures {l, NextLang(l), NextLang(NextLang(l))} == {Es, En, Pt}
  {
  }

  /** Two languages never read the same column of a client. */
  lemma SuffixesDiffer(base: string, l: Lang, m: Lang)
    requires l != m
    ensures base + Suffix(l) != base + Suffix(m)
  {
    var a := base + Suffix(l);
    var b := base + Suffix(m);
    if |a| == |b| {
      assert {l, m} == {Es, En};
      assert a[|base| + 1] == Suffix(l)[1];
      assert b[|base| + 1] == Suffix(m)[1];
    }
  }

  /** A client as the card receives it: its columns by name; a missing column is `undefined`. */
  type Client = map<string, string>

  /** The card's state: the language it shows. */
  class Card {
    var currentLang: Lang

    /** A card starts in Spanish. */
    constructor ()
      ensures currentLang == Es
    {
      currentLang := Es;
    }

    /** `getFieldByLang(fieldBase)`: the column `fieldBase` with the suffix of the language shown, `undefined` when missing. */
    function GetFieldByLang(client: Client, fieldBase: string): (r: Option<string>)
      reads this
      ensures r.Some? <==> fieldBase + Suffix(currentLang) in client
      ensures r.Some? ==> r.value == client[fieldBase + Suffix(currentLang)]
    {
      var key := if currentLang == Es then fieldBase + "_spanish"
                 else if currentLang == En then fieldBase + "_english"
                 else fieldBase + "_portuguese";
      if key in client then Some(client[key]) else None
    }

    /** `handleNextLang`. */
    method HandleNextLang()
      modifies this
      ensures currentLang == NextLang(old(currentLang))
    {
      if currentLang == Es {
        currentLang := En;
      } else if currentLang == En {
        currentLang := Pt;
      } else {
        currentLang := Es;
      }
    }

    /** `handlePrevLang`. */
    method HandlePrevLang()
      modifies this
      ensures currentLang == PrevLang(old(currentLang))
    {
      if currentLang == Es {
        currentLang := Pt;
      } else if currentLang == Pt {
        currentLang := En;
      } else {
        currentLang := Es;
      }
    }
  }

  /** Pressing "next" and then "previous" shows the same column again, whatever the card showed before. */
  method NextThenPrev(card: Card, client: Client, fieldBase: string) returns (before: Option<string>, after: Option<string>)
    modifies card
    ensures before == after
    ensures card.currentLang == old(card.currentLang)
  {
    before := card.GetFieldByLang(client, fieldBase);
    card.HandleNextLang();
    card.HandlePrevLang();
    PrevUndoesNext(old(card.currentLang));
    after := card.GetFieldByLang(client, fieldBase);
  }
}

/**
 * Country-name reconciliation: the three literal substitution dictionaries
 * of etl.py and the whole-cell replacement (`DataFrame.replace` /
 * `na.replace` with a dict) that applies them to one column.
 */
module Replacement {

  /** A substitution dictionary: cell value to its replacement. */
  type Dict = map<string, string>

  /**
   * Whole-cell lookup: a cell equal to a key becomes that key's value;
   * every other cell, including one that merely contains a key, is kept.
   */
  function ReplaceCell(d: Dict, cell: string): (r: string)
    ensures cell in d ==> r == d[cell]
    ensures cell !in d ==> r == cell
  {
    if cell in d then d[cell] else cell
  }

  /** No value of `d` is a key of `e`. */
  predicate Avoids(d: Dict, e: Dict) {
    forall k :: k in d ==> d[k] !in e
  }

  /** No replacement value is itself a key, so no rewrite can feed another. */
  predicate NoChains(d: Dict) {
    Avoids(d, d)
  }

  /** Avoidance distributes over map union on either side. */
  lemma AvoidsUnion(a: Dict, b: Dict, c: Dict)
    ensures Avoids(a, b) && Avoids(a, c) ==> Avoids(a, b + c)
    ensures Avoids(a, c) && Avoids(b, c) ==> Avoids(a + b, c)
  {
  }

  /** Applying a chain-free dictionary a second time changes nothing. */
  lemma ReplaceIdempotent(d: Dict, cell: string)
    requires NoChains(d)
    ensures ReplaceCell(d, ReplaceCell(d, cell)) == ReplaceCell(d, cell)
  {
    if cell in d {
      assert d[cell] !in d;
    }
  }

  /**
   * Only keys are rewritten, and with a chain-free dictionary no cleaned
   * cell is a key any more.
   */
  lemma ReplaceChangesOnlyKeys(d: Dict, cell: string)
    requires NoChains(d)
    ensures ReplaceCell(d, cell) != cell ==> cell in d
    ensures ReplaceCell(d, cell) !in d
  {
    if cell in d {
      assert d[cell] !in d;
    }
  }

  /** `countries_dict`: applied to the `country` column of countries.csv. */
  const CountriesDict: Dict := map[
    "MEXICO Air Sea, and Not Reported (I-94, no land arrivals)" := "MEXICO",
    "INVALID: " := "",
    "BURMA" := "MYANMAR"
  ]

  /**
   * `iso_dict`: applied to the original-case `Name` column of iso_2alpha.csv.
   * Its 49 entries are written as four displays in the source's order, which
   * keeps each display small enough for the verifier to search.
   */
  const IsoDict: Dict := IsoDict1 + IsoDict2 + IsoDict3 + IsoDict4

  const IsoDict1: Dict := map[
    "CURAÇAO" := "CURACAO",
    "IRAN, ISLAMIC REPUBLIC OF" := "IRAN",
    "VIRGIN ISLANDS, BRITISH" := "BRITISH VIRGIN ISLANDS",
    "TANZANIA, UNITED REPUBLIC OF" := "TANZANIA",
    "MACEDONIA, THE FORMER YUGOSLAV REPUBLIC OF" := "MACEDONIA",
    "TAIWAN, PROVINCE OF CHINA" := "TAIWAN",
    "CONGO, THE DEMOCRATIC REPUBLIC OF THE" := "CONGO",
    "VENEZUELA, BOLIVARIAN REPUBLIC OF" := "VENEZUELA",
    "KOREA, DEMOCRATIC PEOPLE'S REPUBLIC OF" := "NORTH KOREA",
    "FALKLAND ISLANDS (MALVINAS)" := "FALKLAND ISLANDS",
    "VIET NAM" := "VIETNAM",
    "BRUNEI DARUSSALAM" := "BRUNEI",
    "BOLIVIA, PLURINATIONAL STATE OF" := "BOLIVIA"
  ]

  const IsoDict2: Dict := map[
    "MICRONESIA, FEDERATED STATES OF" := "MICRONESIA, FED. STATES OF",
    "VIRGIN ISLANDS, U.S." := "U.S. VIRGIN ISLANDS",
    "MOLDOVA, REPUBLIC OF" := "MOLDOVA",
    "KOREA, REPUBLIC OF" := "SOUTH KOREA",
    "PALESTINE, STATE OF" := "PALESTINE",
    "SAINT HELENA, ASCENSION AND TRISTAN DA CUNHA" := "ST. HELENA",
    "BOSNIA AND HERZEGOVINA" := "BOSNIA-HERZEGOVINA",
    "SAMOA" := "WESTERN SAMOA",
    "CÔTE D'IVOIRE" := "IVORY COAST",
    "CHINA" := "CHINA, PRC",
    "HOLY SEE (VATICAN CITY STATE)" := "HOLY SEE/VATICAN",
    "FAROE ISLANDS" := "FAROE ISLANDS (PART OF DENMARK)"
  ]

  const IsoDict3: Dict := map[
    "SAINT LUCIA" := "ST. LUCIA",
    "LAO PEOPLE'S DEMOCRATIC REPUBLIC" := "LAOS",
    "MACAO" := "MACAU",
    "TIMOR-LESTE" := "EAST TIMOR",
    "SAINT MARTIN (FRENCH PART)" := "SAINT MARTIN",
    "SINT MAARTEN (DUTCH PART)" := "SAINT MAARTEN",
    "SAINT KITTS AND NEVIS" := "ST. KITTS-NEVIS",
    "BONAIRE, SINT EUSTATIUS AND SABA" := "BONAIRE, ST EUSTATIUS, SABA",
    "COCOS (KEELING) ISLANDS" := "COCOS ISLANDS",
    "SYRIAN ARAB REPUBLIC" := "SYRIA",
    "RUSSIAN FEDERATION" := "RUSSIA",
    "WALLIS AND FUTUNA" := "WALLIS AND FUTUNA ISLANDS"
  ]

  const IsoDict4: Dict := map[
    "NORTHERN MARIANA ISLANDS" := "MARIANA ISLANDS, NORTHERN",
    "ANTIGUA AND BARBUDA" := "ANTIGUA-BARBUDA",
    "HEARD ISLAND AND MCDONALD ISLANDS" := "HEARD AND MCDONALD IS.",
    "SAINT BARTHÉLEMY" := "SAINT BARTHELEMY",
    "MAYOTTE" := "MAYOTTE (AFRICA - FRENCH)",
    "RÉUNION" := "REUNION",
    "BOUVET ISLAND" := "BOUVET ISLAND (ANTARCTICA/NORWAY TERR.)",
    "SAINT VINCENT AND THE GRENADINES" := "ST. VINCENT-GRENADINES",
    "SAINT PIERRE AND MIQUELON" := "ST. PIERRE AND MIQUELON",
    "UNITED STATES MINOR OUTLYING ISLANDS" := "MINOR OUTLYING ISLANDS - USA",
    "SOUTH SUDAN" := "REPUBLIC OF SOUTH SUDAN",
    "BRITISH INDIAN OCEAN TERRITORY" := "INDIAN OCEAN TERRITORY"
  ]

  /** `temp_dict`: applied to the upper-cased `Country` column of the temperature file. */
  const TempDict: Dict := map[
    "BOSNIA AND HERZEGOVINA" := "BOSNIA-HERZEGOVINA",
    "CHINA" := "CHINA, PRC",
    "CÔTE D'IVOIRE" := "IVORY COAST",
    "GUINEA BISSAU" := "GUINEA-BISSAU",
    "CONGO (DEMOCRATIC REPUBLIC OF THE)" := "CONGO",
    "BURMA" := "MYANMAR"
  ]

  /*
   * Chain-freedom of `iso_dict`, one pair of blocks at a time: the values of
   * block i are none of the keys of block j. Each pair compares a dozen
   * string literals against a dozen others; stated for the whole dictionary
   * at once the comparison is too large for the verifier to settle.
   */

  lemma IsoValues1AvoidKeys1()
    ensures Avoids(IsoDict1, IsoDict1)
  {
  }

  lemma IsoValues1AvoidKeys2()
    ensures Avoids(IsoDict1, IsoDict2)
  {
  }

  lemma IsoValues1AvoidKeys3()
    ensures Avoids(IsoDict1, IsoDict3)
  {
  }

  lemma IsoValues1AvoidKeys4()
    ensures Avoids(IsoDict1, IsoDict4)
  {
  }

  lemma IsoValues2AvoidKeys1()
    ensures Avoids(IsoDict2, IsoDict1)
  {
  }

  lemma IsoValues2AvoidKeys2()
    ensures Avoids(IsoDict2, IsoDict2)
  {
  }

  lemma IsoValues2AvoidKeys3()
    ensures Avoids(IsoDict2, IsoDict3)
  {
  }

  lemma IsoValues2AvoidKeys4()
    ensures Avoids(IsoDict2, IsoDict4)
  {
  }

  lemma IsoValues3AvoidKeys1()
    ensures Avoids(IsoDict3, IsoDict1)
  {
  }

  lemma IsoValues3AvoidKeys2()
    ensures Avoids(IsoDict3, IsoDict2)
  {
  }

  lemma IsoValues3AvoidKeys3()
    ensures Avoids(IsoDict3, IsoDict3)
  {
  }

  lemma IsoValues3AvoidKeys4()
    ensures Avoids(IsoDict3, IsoDict4)
  {
  }

  lemma IsoValues4AvoidKeys1()
    ensures Avoids(IsoDict4, IsoDict1)
  {
  }

  lemma IsoValues4AvoidKeys2()
    ensures Avoids(IsoDict4, IsoDict2)
  {
  }

  lemma IsoValues4AvoidKeys3()
    ensures Avoids(IsoDict4, IsoDict3)
  {
  }

  lemma IsoValues4AvoidKeys4()
    ensures Avoids(IsoDict4, IsoDict4)
  {
  }

  /** A dictionary assembled from blocks is chain-free when no block's values hit any block's keys. */
  lemma NoChainsOfBlocks(a: Dict, b: Dict, c: Dict, d: Dict)
    requires Avoids(a, a)
    requires Avoids(a, b)
    requires Avoids(a, c)
    requires Avoids(a, d)
    requires Avoids(b, a)
    requires Avoids(b, b)
    requires Avoids(b, c)
    requires Avoids(b, d)
    requires Avoids(c, a)
    requires Avoids(c, b)
    requires Avoids(c, c)
    requires Avoids(c, d)
    requires Avoids(d, a)
    requires Avoids(d, b)
    requires Avoids(d, c)
    requires Avoids(d, d)
    ensures NoChains(a + b + c + d)
  {
    forall x | x in [a, b, c, d]
      ensures Avoids(x, a + b + c + d)
    {
      AvoidsUnion(x, a, b);
      AvoidsUnion(x, a + b, c);
      AvoidsUnion(x, a + b + c, d);
    }
    AvoidsUnion(a, b, a + b + c + d);
    AvoidsUnion(a + b, c, a + b + c + d);
    AvoidsUnion(a + b + c, d, a + b + c + d);
  }

  /** `iso_dict` never rewrites into one of its own keys. */
  lemma IsoDictHasNoChains()
    ensures NoChains(IsoDict)
  {
    IsoValues1AvoidKeys1();
    IsoValues1AvoidKeys2();
    IsoValues1AvoidKeys3();
    IsoValues1AvoidKeys4();
    IsoValues2AvoidKeys1();
    IsoValues2AvoidKeys2();
    IsoValues2AvoidKeys3();
    IsoValues2AvoidKeys4();
    IsoValues3AvoidKeys1();
    IsoValues3AvoidKeys2();
    IsoValues3AvoidKeys3();
    IsoValues3AvoidKeys4();
    IsoValues4AvoidKeys1();
    IsoValues4AvoidKeys2();
    IsoValues4AvoidKeys3();
    IsoValues4AvoidKeys4();
    NoChainsOfBlocks(IsoDict1, IsoDict2, IsoDict3, IsoDict4);
  }

  /** `countries_dict` never rewrites into one of its own keys. */
  lemma CountriesDictHasNoChains()
    ensures NoChains(CountriesDict)
  {
  }

  /** `temp_dict` never rewrites into one of its own keys. */
  lemma TempDictHasNoChains()
    ensures NoChains(TempDict)
  {
  }

  /** A key of the first of four blocks, absent from the other three, keeps its value in their union. */
  lemma LookupFirstBlock(a: Dict, b: Dict, c: Dict, d: Dict, k: string)
    requires k in a && k !in b && k !in c && k !in d
    ensures ReplaceCell(a + b + c + d, k) == a[k]
  {
  }

  /** "VIET NAM" is renamed in the first block of `iso_dict`. */
  lemma VietNamInFirstBlock()
    ensures "VIET NAM" in IsoDict1 && IsoDict1["VIET NAM"] == "VIETNAM"
  {
  }

  /** No other block of `iso_dict` mentions "VIET NAM". */
  lemma VietNamOutsideOtherBlocks()
    ensures "VIET NAM" !in IsoDict2 && "VIET NAM" !in IsoDict3 && "VIET NAM" !in IsoDict4
  {
  }

  /** `iso_dict` renames the ISO list's "VIET NAM" to the country list's "VIETNAM". */
  lemma IsoDictRenamesVietNam()
    ensures ReplaceCell(IsoDict, "VIET NAM") == "VIETNAM"
  {
    VietNamInFirstBlock();
    VietNamOutsideOtherBlocks();
    LookupFirstBlock(IsoDict1, IsoDict2, IsoDict3, IsoDict4, "VIET NAM");
  }

  /** The dictionaries are applied as whole-cell lookups, never as substring rewrites. */
  lemma WholeCellExamples()
    ensures ReplaceCell(CountriesDict, "BURMA") == "MYANMAR"
    ensures ReplaceCell(CountriesDict, "INVALID: ") == ""
    ensures ReplaceCell(CountriesDict, "INVALID: ANTARCTICA") == "INVALID: ANTARCTICA"
    ensures ReplaceCell(TempDict, "BURMA") == "MYANMAR"
  {
  }
}

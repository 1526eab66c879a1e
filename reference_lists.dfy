/** The two fixed reference lists of the ISM Manufacturing Report: the 18
    manufacturing industries and the 11 survey indicators, in the order the
    report presents them. */
module ReferenceLists {
  import opened Lists

  /** Every industry the report can name. */
  const Industries: seq<string> := [
    "Textile Mills",
    "Primary Metals",
    "Transportation Equipment",
    "Apparel, Leather & Allied Products",
    "Petroleum & Coal Products",
    "Printing & Related Support Activities",
    "Machinery",
    "Computer & Electronic Products",
    "Miscellaneous Manufacturing",
    "Electrical Equipment, Appliances & Components",
    "Plastics & Rubber Products",
    "Paper Products",
    "Furniture & Related Products",
    "Chemical Products",
    "Food, Beverage & Tobacco Products",
    "Fabricated Metal Products",
    "Nonmetallic Mineral Products",
    "Wood Products"
  ]

  /** The indicator section headings, in document order. The fifth label
      carries a trailing newline, as in the script. */
  const Indicators: seq<string> := [
    "NEW ORDERS",
    "PRODUCTION",
    "EMPLOYMENT",
    "SUPPLIER DELIVERIES",
    "INVENTORIES\n",
    "CUSTOMERS' INVENTORIES",
    "PRICES",
    "BACKLOG OF ORDERS",
    "NEW EXPORT ORDERS",
    "IMPORTS",
    "BUYING POLICY"
  ]

  /** There are 18 industries, no two alike: any two differ in length or in
      their second character. */
  lemma IndustriesDistinct()
    ensures |Industries| == 18 && NoDup(Industries)
  {
    forall i, j | 0 <= i < j < |Industries| ensures Industries[i] != Industries[j] {
      assert |Industries[i]| != |Industries[j]| || Industries[i][1] != Industries[j][1];
    }
  }

  /** There are 11 indicator labels, all non-empty and no two alike. */
  lemma IndicatorsDistinct()
    ensures |Indicators| == 11 && NoDup(Indicators)
    ensures forall i :: 0 <= i < |Indicators| ==> Indicators[i] != []
  {
  }
}

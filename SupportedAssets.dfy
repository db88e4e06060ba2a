/** The read-only table from asset identifier to its five-level derivation path. */
module SupportedAssets {
  import opened Bytes

  /** The keys of the table; the type SupportedAssets admits exactly these. */
  datatype Asset = SOL_TEST | SOL | SOL_STAKING

  /** The path registered for an asset: total over Asset, fixed for the program's lifetime. */
  function DerivationPath(asset: Asset): (path: seq<nat>)
    ensures |path| == 5
    ensures forall i :: 0 <= i < |path| ==> path[i] < TWO_32
    ensures path[0] == 44 && path[1] == 501 && path[3] == 0
  {
    match asset
    case SOL_TEST => [44, 501, 8, 0, 0]
    case SOL => [44, 501, 8, 0, 0]
    case SOL_STAKING => [44, 501, 0, 0, 1]
  }

  /** The test-network asset derives the very same key as the main-network one. */
  lemma SolAndSolTestShareAPath()
    ensures DerivationPath(SOL_TEST) == DerivationPath(SOL) == [44, 501, 8, 0, 0]
  {
  }

  /** The staking path departs from SOL's exactly at levels 2 and 4. */
  lemma StakingDiffersAtLevels2And4()
    ensures DerivationPath(SOL_STAKING) == [44, 501, 0, 0, 1]
    ensures forall i :: 0 <= i < 5 ==>
              (DerivationPath(SOL_STAKING)[i] != DerivationPath(SOL)[i] <==> i == 2 || i == 4)
  {
  }
}

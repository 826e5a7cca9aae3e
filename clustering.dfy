/** The integer parameters `cluster_videos` hands to scikit-learn, its
    single-category fallback when scikit-learn is missing, and the guard in
    `organize_mixed_folder` that stops before clustering an empty folder.
    Standardisation, PCA and KMeans themselves are library calls and are not
    modelled; only what they are given is. */
module Clustering {
  import opened Arith
  import opened Wrappers

  /** The cap on PCA components. */
  const MaxComponents: nat := 50

  /** One cluster per this many videos. */
  const VideosPerCluster: nat := 10

  /** `n_components = min(50, max(1, d - 1))`, as written, for `d` features. */
  function NumComponents(d: int): (k: int)
    ensures 1 <= k <= MaxComponents
    ensures d >= 2 ==> k <= d - 1
    ensures d > MaxComponents ==> k == MaxComponents
  {
    Min(MaxComponents, Max(1, d - 1))
  }

  /** What scikit-learn's PCA accepts as an integer `n_components`: at most
      the smaller of the number of samples and the number of features. */
  predicate PcaAccepts(k: int, samples: nat, features: nat) {
    1 <= k <= Min(samples, features)
  }

  /** `n_components` also bounded by the number of videos, so that PCA
      accepts it; equal to the written value whenever there are enough videos. */
  function FittedComponents(samples: nat, d: nat): (k: int)
    requires samples >= 1 && d >= 1
    ensures PcaAccepts(k, samples, d)
    ensures 1 <= k <= MaxComponents
    ensures samples >= NumComponents(d) ==> k == NumComponents(d)
  {
    Min(NumComponents(d), samples)
  }

  /** `num_clusters = min(max(1, int(n / 10)), n)` for `n` videos. */
  function NumClusters(n: nat): (k: nat)
    ensures n >= 1 ==> 1 <= k <= n
    ensures n >= VideosPerCluster ==> VideosPerCluster * k <= n < VideosPerCluster * (k + 1)
    ensures 1 <= n < 2 * VideosPerCluster ==> k == 1
    ensures n == 0 ==> k == 0
  {
    Min(Max(1, n / VideosPerCluster), n)
  }

  /** What `cluster_videos` produces: all-zero labels when scikit-learn is
      missing, `PCA.fit_transform` raising `ValueError` on a component count
      it does not accept, or a KMeans run with these parameters. */
  datatype Clustering =
    | SingleCategory(labels: seq<nat>)
    | PcaRejected(components: int)
    | KMeansRun(components: int, clusters: nat)

  /** `cluster_videos` as written, on `n` feature vectors of `d` entries
      each. The scikit-learn branch is only reached with at least one video. */
  function ClusterVideos(n: nat, d: nat, sklearn: bool): (c: Clustering)
    requires sklearn ==> n >= 1 && d >= 1
    ensures !sklearn ==> c.SingleCategory? && |c.labels| == n
    ensures !sklearn ==> forall i :: 0 <= i < n ==> c.labels[i] == 0
    ensures sklearn ==> (c.PcaRejected? <==> n < NumComponents(d))
    ensures sklearn && c.PcaRejected? ==> c.components == NumComponents(d)
    ensures sklearn && !c.PcaRejected? ==>
              c == KMeansRun(NumComponents(d), NumClusters(n)) && 1 <= c.clusters <= n
  {
    if !sklearn then SingleCategory(seq(n, _ => 0))
    else if !PcaAccepts(NumComponents(d), n, d) then PcaRejected(NumComponents(d))
    else KMeansRun(NumComponents(d), NumClusters(n))
  }

  /** `cluster_videos` with the component count bounded by the number of
      videos: with scikit-learn it always reaches KMeans. */
  function ClusterVideosFixed(n: nat, d: nat, sklearn: bool): (c: Clustering)
    requires sklearn ==> n >= 1 && d >= 1
    ensures !sklearn ==> c == ClusterVideos(n, d, sklearn)
    ensures sklearn ==> c.KMeansRun? && 1 <= c.clusters <= n
    ensures sklearn ==> PcaAccepts(c.components, n, d) && c.components <= MaxComponents
    ensures sklearn && n >= NumComponents(d) ==> c == ClusterVideos(n, d, sklearn)
  {
    if !sklearn then SingleCategory(seq(n, _ => 0))
    else KMeansRun(FittedComponents(n, d), NumClusters(n))
  }

  /** `organize_mixed_folder` up to moving the files: nothing happens for an
      empty folder, otherwise the videos are clustered as written. A
      `PcaRejected` result is the exception that makes `__main__` exit with
      status 1. */
  function Organize(n: nat, d: nat, sklearn: bool): (r: Option<Clustering>)
    requires d >= 1
    ensures r.None? <==> n == 0
    ensures r.Some? && !sklearn ==> r.value == SingleCategory(seq(n, _ => 0))
    ensures r.Some? && sklearn ==> (r.value.PcaRejected? <==> n < NumComponents(d))
    ensures r.Some? && sklearn && !r.value.PcaRejected? ==>
              r.value.KMeansRun? && 1 <= r.value.clusters <= n
  {
    if n == 0 then None else Some(ClusterVideos(n, d, sklearn))
  }

  // ---------------------------------------------------------------------
  // Lemmas

  /** PCA accepts the written `n_components` exactly when there are at least
      that many videos. */
  lemma NumComponentsAcceptedIff(samples: nat, d: nat)
    requires d >= 1
    ensures PcaAccepts(NumComponents(d), samples, d) <==> samples >= NumComponents(d)
  {
  }

  /** The written rule gives PCA too many components for ten videos of 352 features. */
  lemma NumComponentsRejectedForTenVideos()
    ensures NumComponents(352) == 50
    ensures !PcaAccepts(NumComponents(352), 10, 352)
  {
  }

  /** Both vector lengths `extract_video_features` returns give 50
      components, so with scikit-learn every folder of fewer than 50 videos
      ends in the exception, and every larger one is clustered. */
  lemma RejectedBelowFiftyVideos(n: nat, d: nat)
    requires n >= 1 && (d == 72 || d == 352)
    ensures NumComponents(d) == MaxComponents
    ensures Organize(n, d, true).value.PcaRejected? <==> n < MaxComponents
  {
  }
}

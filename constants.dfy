/**
  The named constants of the vetter utility package that the mesh
  membership logic reads.
 */
module Constants {

  /** Namespace that holds the Istio control plane and its config maps. */
  const IstioNamespace: string := "istio-system"

  /** Name of the sidecar proxy container injected into a pod. */
  const IstioProxyContainerName: string := "istio-proxy"

  /** Annotation the sidecar initializer puts on every pod it has injected. */
  const IstioInitializerPodAnnotation: string := "sidecar.istio.io/status"

  /** Config map holding the initializer configuration, and its key. */
  const IstioInitializerConfigMap: string := "istio-inject"
  const IstioInitializerConfigMapKey: string := "config"

  /** Text of the lister error when the initializer config map does not exist. */
  const InitializerDisabled: string := "configmaps \"" + IstioInitializerConfigMap + "\" not found"

  /** Fixed opening of the note that says the initializer is disabled. */
  const InitializerDisabledSummary: string :=
    "Istio initializer is not configured." +
    " Enable initializer and automatic sidecar injection to use "

  /** Name of the API server's own service and endpoints object. */
  const KubernetesServiceName: string := "kubernetes"

  /** The Kubernetes "all namespaces" sentinel. */
  const NamespaceAll: string := ""
}

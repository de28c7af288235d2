/**
  The parts of the Kubernetes and vetter API records that the mesh
  membership logic reads. All of them are read-only values here.
 */
module Kube {

  datatype Namespace = Namespace(name: string)

  datatype Container = Container(name: string, image: string)

  datatype PodSpec = PodSpec(containers: seq<Container>, initContainers: seq<Container>)

  datatype Pod = Pod(name: string, namespace: string, annotations: map<string, string>, spec: PodSpec)

  datatype Service = Service(name: string, namespace: string)

  datatype Endpoints = Endpoints(name: string, namespace: string)

  datatype ConfigMap = ConfigMap(name: string, namespace: string, data: map<string, string>)

  /** Severity of a vetter note. */
  datatype NoteLevel = Info | Warning | Error

  /** A finding reported by a vetter. */
  datatype Note = Note(noteType: string, summary: string, level: NoteLevel)
}

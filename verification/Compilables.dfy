/** The services a compile takes (internal/transit/compilable.go), and the graph it makes (contract/transit/graph.go). */
module Compilables {
  import opened Collections
  import opened BoardingWait
  import opened Clustering
  import opened SpeedLimits

  datatype Route = Route(id: string, line: seq<Point>, segments: seq<Segment>)

  datatype VehicleDynamics = VehicleDynamics(maxSpeedKMH: real, accelerationMS2: real, decelerationMS2: real)

  datatype CompilableStop = CompilableStop(
    slug: string, name: string, lat: real, lng: real, dwellS: int, offsetM: real)

  datatype CompilableService = CompilableService(
    id: string, route: Route, vehicle: VehicleDynamics, stops: seq<CompilableStop>, windows: seq<Window>,
    boardingWait: Option<Override>, scenarioBoardingWait: Option<Override>)

  datatype GraphNode = GraphNode(slug: string, lat: real, lng: real, names: seq<string>)

  datatype StopCluster = StopCluster(key: string, names: seq<string>, members: seq<StopRef>)

  datatype NearMiss = NearMiss(a: StopRef, b: StopRef, distanceM: real)

  datatype MergeReport = MergeReport(clusters: seq<StopCluster>, nearMisses: seq<NearMiss>)

  datatype Edge = Edge(
    fromSlug: string, toSlug: string, seconds: int, dwellS: int, routeId: string,
    fromChainageM: real, toChainageM: real)

  datatype ServiceGraph = ServiceGraph(serviceId: string, edges: seq<Edge>, waitSecs: int, waitPolicy: string)

  datatype TransitGraph = TransitGraph(services: seq<ServiceGraph>, merge: MergeReport, nodes: seq<GraphNode>)
}

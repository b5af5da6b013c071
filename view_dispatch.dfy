/** The per-action serializer choice of the movie and movie-session view
    sets (get_serializer_class): the list action gets the list shape, the
    retrieve action the detail shape, every other action the plain
    writable shape. An action is its name, as the view set holds it. */
module ViewDispatch {

  datatype MovieSerializerKind = MovieListSerializer | MovieDetailSerializer | MovieSerializer

  datatype SessionSerializerKind =
    | MovieSessionListSerializer
    | MovieSessionDetailSerializer
    | MovieSessionSerializer

  /** The derived session field a session projection carries, if any. */
  datatype DerivedField = TicketsAvailableField | TakenPlacesField

  function MovieSerializerFor(action: string): (k: MovieSerializerKind)
    ensures k == MovieListSerializer <==> action == "list"
    ensures k == MovieDetailSerializer <==> action == "retrieve"
  {
    if action == "list" then MovieListSerializer
    else if action == "retrieve" then MovieDetailSerializer
    else MovieSerializer
  }

  function SessionSerializerFor(action: string): (k: SessionSerializerKind)
    ensures k == MovieSessionListSerializer <==> action == "list"
    ensures k == MovieSessionDetailSerializer <==> action == "retrieve"
  {
    if action == "list" then MovieSessionListSerializer
    else if action == "retrieve" then MovieSessionDetailSerializer
    else MovieSessionSerializer
  }

  /** The derived fields each session serializer adds to the plain one. */
  function DerivedFields(k: SessionSerializerKind): set<DerivedField>
  {
    match k
    case MovieSessionListSerializer => {TicketsAvailableField}
    case MovieSessionDetailSerializer => {TakenPlacesField}
    case MovieSessionSerializer => {}
  }

  /** tickets_available is served exactly by the list action, taken_places
      exactly by the retrieve action, and every other action (create,
      update, partial update, destroy, ...) serves neither. */
  lemma DerivedFieldsPerAction(action: string)
    ensures TicketsAvailableField in DerivedFields(SessionSerializerFor(action)) <==> action == "list"
    ensures TakenPlacesField in DerivedFields(SessionSerializerFor(action)) <==> action == "retrieve"
  {
  }

  /** Both view sets pick the same shape for every action. */
  lemma SameShapeForEveryAction(action: string)
    ensures MovieSerializerFor(action) == MovieListSerializer <==>
              SessionSerializerFor(action) == MovieSessionListSerializer
    ensures MovieSerializerFor(action) == MovieDetailSerializer <==>
              SessionSerializerFor(action) == MovieSessionDetailSerializer
    ensures MovieSerializerFor(action) == MovieSerializer <==>
              SessionSerializerFor(action) == MovieSessionSerializer
  {
  }
}

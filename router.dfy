/**
 * The `message` handler of `src/bot.js`: messages the bot sent itself are
 * ignored, group chats are turned away, and every other message is
 * normalised, logged and routed by the first keyword its text contains;
 * a message with no keyword is read as an order.
 *
 * The database, the route service and the similarity library are the
 * handler's collaborators; `Env` holds what each of them answers for the
 * message at hand.
 */
module Router {
  import opened Wrappers
  import opened Strings
  import opened Normalization
  import opened Catalog
  import opened Matcher
  import opened Extractor

  /** What the handler reads from a WhatsApp message. */
  datatype Message = Message(fromMe: bool, sender: string, body: string)

  /** What `calcularDistanciaTempo` returns when the route service answers:
      the distance in hundredths of a kilometre and the time in whole
      minutes. */
  datatype RouteInfo = RouteInfo(distance: nat, minutes: nat)

  /** The collaborators' answers for one message: whether `registrarLog`
      reaches the database, what `obterCardapio` returns (None when it
      throws), what `calcularDistanciaTempo` returns (None for `null`),
      whether saving the order succeeds, and the similarity measure. */
  datatype Env = Env(
    logReachable: bool,
    menu: Option<seq<Item>>,
    route: Option<RouteInfo>,
    saved: bool,
    sim: Similarity)

  /** The branches of the handler, in the order it tests them. */
  datatype Route = ShowMenu | Help | Location | Confirm | Cancel | Delivery | Address | PlaceOrder

  const GroupReply: string :=
    "\U{274C} Desculpe, n\U{E3}o atendemos pedidos em grupos. Por favor, envie sua mensagem diretamente."
  const HelpReply: string :=
    "\U{1F4AC} Comandos dispon\U{ED}veis:\n\n"
    + "\U{1F4DC} *Card\U{E1}pio* - Veja o menu\n"
    + "\U{1F4CD} *Localiza\U{E7}\U{E3}o* - Mostra onde estamos\n"
    + "\U{2705} *Confirmar* - Confirma pedido\n"
    + "\U{274C} *Cancelar* - Cancela pedido\n"
    + "\U{1F69A} *Entrega* - Informe o endere\U{E7}o para c\U{E1}lculo de dist\U{E2}ncia e tempo"
  /** `gerarRespostaLocalizacao()` with the configured coordinates. */
  const LocationReply: string :=
    "\U{1F4CD} Nossa localiza\U{E7}\U{E3}o:\n"
    + "https://www.openstreetmap.org/?mlat=-23.55052&mlon=-46.633308#map=17/-23.55052/-46.633308"
  const ConfirmReply: string := "\U{2705} Pedido confirmado! Estamos preparando seu lanche."
  const CancelReply: string := "\U{274C} Pedido cancelado. Se precisar, estou \U{E0} disposi\U{E7}\U{E3}o!"
  const DeliveryReply: string :=
    "\U{1F69A} Por favor, envie seu endere\U{E7}o completo para calcular a dist\U{E2}ncia e o tempo estimado de entrega."
  const RouteFailedReply: string :=
    "\U{274C} N\U{E3}o foi poss\U{ED}vel calcular a dist\U{E2}ncia. Verifique o endere\U{E7}o e tente novamente."
  const NotUnderstoodReply: string :=
    "\U{1F914} " + "N\U{E3}o entendi seu pedido. Tente novamente ou digite 'ajuda' para ver os comandos dispon\U{ED}veis."
  const OpsReply: string := "\U{274C} Ops! Algo deu errado. Tente novamente ou entre em contato conosco."

  /** The reply to an address the route service resolved. */
  function RouteReply(r: RouteInfo): string {
    "\U{1F4CD} Dist\U{E2}ncia: " + (CentsText(r.distance) + " km")
    + ("\n\U{23F3} Tempo estimado: " + DigitsOf(r.minutes) + " min")
  }

  /** The route reply gives the distance in kilometres with two decimals. */
  lemma RouteReplyShowsDistance(r: RouteInfo)
    ensures Contains(RouteReply(r), CentsText(r.distance) + " km")
  {
    var dist := CentsText(r.distance) + " km";
    var rest := "\n\U{23F3} Tempo estimado: " + DigitsOf(r.minutes) + " min";
    ContainsSelf(dist);
    ContainsWithin("\U{1F4CD} Dist\U{E2}ncia: ", dist, rest, dist);
  }

  /** The route reply ends with the time in whole minutes. */
  lemma RouteReplyEndsWithTime(r: RouteInfo)
    ensures var tail := DigitsOf(r.minutes) + " min";
      |tail| <= |RouteReply(r)| && RouteReply(r)[|RouteReply(r)| - |tail|..] == tail
  {
    var head := "\U{1F4CD} Dist\U{E2}ncia: " + CentsText(r.distance) + " km\n\U{23F3} Tempo estimado: ";
    assert RouteReply(r) == head + (DigitsOf(r.minutes) + " min");
  }

  /** The text holds one of the keywords `words`. */
  predicate Mentions(text: string, words: seq<string>)
    decreases |words|
  {
    words != [] && (Contains(text, words[0]) || Mentions(text, words[1..]))
  }

  /** A keyword chain as a table: the route of the first row, in order,
      whose keywords the text holds; an order when it holds none. */
  function FirstHit(text: string, rows: seq<(Route, seq<string>)>): Route
    decreases |rows|
  {
    if rows == [] then PlaceOrder
    else if Mentions(text, rows[0].1) then rows[0].0
    else FirstHit(text, rows[1..])
  }

  /** The chain picks the first row the text hits, and an order exactly
      when it hits no row (no row leads to an order). */
  lemma {:induction false} FirstHitIsFirst(text: string, rows: seq<(Route, seq<string>)>)
    requires forall j :: 0 <= j < |rows| ==> rows[j].0 != PlaceOrder
    ensures FirstHit(text, rows) == PlaceOrder <==> forall j :: 0 <= j < |rows| ==> !Mentions(text, rows[j].1)
    ensures FirstHit(text, rows) != PlaceOrder ==>
      exists j :: 0 <= j < |rows| && rows[j].0 == FirstHit(text, rows) && Mentions(text, rows[j].1)
        && forall i :: 0 <= i < j ==> !Mentions(text, rows[i].1)
    decreases |rows|
  {
    if rows != [] {
      if Mentions(text, rows[0].1) {
        assert rows[0].0 != PlaceOrder;
      } else {
        FirstHitIsFirst(text, rows[1..]);
        if FirstHit(text, rows[1..]) != PlaceOrder {
          var j :| 0 <= j < |rows[1..]| && rows[1..][j].0 == FirstHit(text, rows[1..])
            && Mentions(text, rows[1..][j].1) && forall i :: 0 <= i < j ==> !Mentions(text, rows[1..][i].1);
          assert rows[j + 1] == rows[1..][j];
          forall i | 0 <= i < j + 1
            ensures !Mentions(text, rows[i].1)
          {
            if i > 0 {
              assert rows[i] == rows[1..][i - 1];
            }
          }
        } else {
          forall j | 0 <= j < |rows|
            ensures !Mentions(text, rows[j].1)
          {
            if j > 0 {
              assert rows[j] == rows[1..][j - 1];
            }
          }
        }
      }
    }
  }

  /** The keyword tests of the handler, in the order it makes them. */
  const Rows: seq<(Route, seq<string>)> := [
    (ShowMenu, ["cardapio", "menu"]), (Help, ["ajuda"]), (Location, ["localizacao", "onde"]),
    (Confirm, ["confirmar"]), (Cancel, ["cancelar"]), (Delivery, ["entrega"]), (Address, [","])]

  /** The handler's chain of tests is the table `Rows` read first hit
      first. */
  lemma ClassifyIsFirstHit(text: string)
    ensures Classify(text) == FirstHit(text, Rows)
  {
    var rows := Rows;
    assert rows[1..][1..][1..][1..][1..][1..][1..] == [];
  }

  /** The keyword chain of the handler, first match wins. Each test is a
      plain substring test, so a keyword inside a longer word counts. */
  function Classify(text: string): Route {
    if Contains(text, "cardapio") || Contains(text, "menu") then ShowMenu
    else if Contains(text, "ajuda") then Help
    else if Contains(text, "localizacao") || Contains(text, "onde") then Location
    else if Contains(text, "confirmar") then Confirm
    else if Contains(text, "cancelar") then Cancel
    else if Contains(text, "entrega") then Delivery
    else if Contains(text, ",") then Address
    else PlaceOrder
  }

  /** The branch `PlaceOrder` as the source writes it, for the order lines
      read from the text: the order is priced, then `registrarPedido` is
      called. `src/db.js` does not export `registrarPedido`, so that call
      throws and the catch answers with the error reply. */
  function OrderAnswer(lines: seq<Line>): (r: string)
    ensures r == NotUnderstoodReply <==> lines == []
    ensures r == OpsReply <==> lines != []
  {
    assert |NotUnderstoodReply| != |OpsReply|;
    if lines == [] then NotUnderstoodReply
    else OpsReply
  }

  /** What `processarPedido` returns for the normalised text, with the
      catalog `obterCardapio` returned (nothing is read without one). */
  function Lines(text: string, env: Env): seq<Line> {
    if env.menu.None? then [] else OrderLines(env.menu.value, text, env.sim)
  }

  /** The body of the `try` block, for the normalised text and its order
      lines. The source reads the lines only in the order branch; they
      depend on the text alone, so reading them first changes no reply. */
  function Answer(text: string, lines: seq<Line>, env: Env): (r: string)
    ensures !env.logReachable || (env.menu.None? && Classify(text) in {ShowMenu, PlaceOrder}) ==> r == OpsReply
  {
    if !env.logReachable then OpsReply
    else
      match Classify(text)
      case ShowMenu => if env.menu.None? then OpsReply else Menu(env.menu.value)
      case Help => HelpReply
      case Location => LocationReply
      case Confirm => ConfirmReply
      case Cancel => CancelReply
      case Delivery => DeliveryReply
      case Address => if env.route.None? then RouteFailedReply else RouteReply(env.route.value)
      case PlaceOrder => if env.menu.None? then OpsReply else OrderAnswer(lines)
  }

  /** The `message` handler: None when the bot does not reply. */
  function Handle(msg: Message, env: Env): (reply: Option<string>)
    ensures reply.None? <==> msg.fromMe
  {
    if msg.fromMe then None
    else if Contains(msg.sender, "@g.us") then Some(GroupReply)
    else
      var text := Normalize(msg.body);
      Some(Answer(text, Lines(text, env), env))
  }

  /** The handler answers through the normalised text only: a message and
      its normalised form get the same reply. */
  lemma HandleSeesNormalizedText(msg: Message, env: Env)
    ensures Handle(msg.(body := Normalize(msg.body)), env) == Handle(msg, env)
  {
    var text := Normalize(msg.body);
    NormalizeIdempotent(msg.body);
    assert msg.(body := text).body == text;
    assert Normalize(text) == text;
  }

  /** The comma test runs on normalised text, which never holds a comma:
      the address branch is unreachable. */
  lemma AddressUnreachable(body: string)
    ensures Classify(Normalize(body)) != Address
  {
    NormalizeHasNoComma(body);
    ContainsChar(Normalize(body), ',');
  }

  /** So the route service is never consulted: its answer does not change
      any reply. */
  lemma RouteNeverConsulted(msg: Message, env: Env)
    ensures Handle(msg, env) == Handle(msg, env.(route := None))
  {
    AddressUnreachable(msg.body);
  }

  /** A message from a group chat gets the group reply, whatever it says and
      whatever the collaborators answer. */
  lemma GroupsTurnedAway(msg: Message, env: Env, env': Env)
    requires !msg.fromMe && Contains(msg.sender, "@g.us")
    ensures Handle(msg, env) == Handle(msg, env') == Some(GroupReply)
  {
  }

  /** The order branch answers from the order lines alone. */
  lemma OrderBranch(text: string, lines: seq<Line>, env: Env)
    requires env.logReachable && env.menu.Some? && Classify(text) == PlaceOrder
    ensures Answer(text, lines, env) == if lines == [] then NotUnderstoodReply else OpsReply
  {
  }

  /** As written, an order the bot understands is never confirmed: the
      message gets the error reply exactly when its text yields order
      lines, and the "not understood" reply otherwise. */
  lemma OrdersNeverConfirmed(msg: Message, env: Env)
    requires !msg.fromMe && !Contains(msg.sender, "@g.us")
    requires env.logReachable && env.menu.Some?
    requires Classify(Normalize(msg.body)) == PlaceOrder
    ensures var lines := OrderLines(env.menu.value, Normalize(msg.body), env.sim);
      Handle(msg, env) == Some(if lines == [] then NotUnderstoodReply else OpsReply)
  {
    var text := Normalize(msg.body);
    OrderBranch(text, Lines(text, env), env);
  }

  /** The keywords are substrings, not words: "responder" holds "onde" and
      is answered with the location. */
  lemma SubstringKeyword(text: string)
    requires text == "responder"
    ensures Classify(text) == Location
  {
    assert text[4..8] == "onde";
    ContainsSlice(text, 4, "onde");
    MissingFirstChar(text, "cardapio");
    MissingFirstChar(text, "menu");
    MissingFirstChar(text, "ajuda");
  }

  // ---------------------------------------------------------------------
  // The handler as evidently intended: the comma test sees the text as
  // typed, and the order is saved by a collaborator that may fail.
  // ---------------------------------------------------------------------

  /** The keyword chain with the address test on the message as typed: it
      agrees with the written chain on every message without a comma whose
      text is not taken for an address. */
  function ClassifyIntended(text: string, raw: string): (r: Route)
    ensures !Contains(raw, ",") && Classify(text) != Address ==> r == Classify(text)
    ensures r == Address <==> Contains(raw, ",") && Classify(text) in {Address, PlaceOrder}
  {
    var r := Classify(text);
    if r == Address || r == PlaceOrder then
      if Contains(raw, ",") then Address else PlaceOrder
    else r
  }

  /** The order branch with a working `registrarPedido`: a saved order is
      answered with a reply naming each of its lines. */
  function OrderAnswerIntended(lines: seq<Line>, env: Env): (r: string)
    ensures r == NotUnderstoodReply <==> lines == []
    ensures lines != [] && !env.saved ==> r == OpsReply
    ensures lines != [] && env.saved ==> forall l :: l in lines ==> Contains(r, LineText(l))
  {
    OrderReplyListsLines(lines, Total(lines));
    assert |NotUnderstoodReply| != |OpsReply|;
    OrderReplyHead(lines, Total(lines));
    if lines == [] then NotUnderstoodReply
    else if !env.saved then OpsReply
    else OrderReply(lines, Total(lines))
  }

  /** The order reply does not begin like the "not understood" reply. */
  lemma OrderReplyHead(lines: seq<Line>, total: int)
    ensures OrderReply(lines, total)[0] != NotUnderstoodReply[0]
  {
    var head := "\U{1F6D2} Pedido registrado!\n\U{1F4E6} Itens: ";
    assert head[0] == '\U{1F6D2}';
    assert OrderReply(lines, total) ==
      head + (Join(LineTexts(lines), ", ") + "\n\U{1F4B0} Total: R$ " + MoneyText(total));
  }

  /** The body of the `try` block for the message as typed, its normalised
      text and its order lines. */
  function AnswerIntended(raw: string, text: string, lines: seq<Line>, env: Env): (r: string)
    ensures !env.logReachable || (env.menu.None? && ClassifyIntended(text, raw) in {ShowMenu, PlaceOrder}) ==> r == OpsReply
  {
    if !env.logReachable then OpsReply
    else
      match ClassifyIntended(text, raw)
      case ShowMenu => if env.menu.None? then OpsReply else Menu(env.menu.value)
      case Help => HelpReply
      case Location => LocationReply
      case Confirm => ConfirmReply
      case Cancel => CancelReply
      case Delivery => DeliveryReply
      case Address => if env.route.None? then RouteFailedReply else RouteReply(env.route.value)
      case PlaceOrder => if env.menu.None? then OpsReply else OrderAnswerIntended(lines, env)
  }

  function HandleIntended(msg: Message, env: Env): (reply: Option<string>)
    ensures reply.None? <==> msg.fromMe
  {
    if msg.fromMe then None
    else if Contains(msg.sender, "@g.us") then Some(GroupReply)
    else
      var text := Normalize(msg.body);
      Some(AnswerIntended(msg.body, text, Lines(text, env), env))
  }

  /** With the comma tested on the typed text, a message holding a comma and
      none of the earlier keywords is answered with the route. */
  lemma AddressReachable(msg: Message, env: Env)
    requires !msg.fromMe && !Contains(msg.sender, "@g.us") && env.logReachable
    requires ',' in msg.body
    requires Classify(Normalize(msg.body)) == PlaceOrder
    ensures HandleIntended(msg, env) ==
      Some(if env.route.None? then RouteFailedReply else RouteReply(env.route.value))
  {
    var text := Normalize(msg.body);
    ContainsChar(msg.body, ',');
    IntendedAddressBranch(msg.body, text, Lines(text, env), env);
  }

  /** The corrected address branch, for the typed message and its text. */
  lemma IntendedAddressBranch(raw: string, text: string, lines: seq<Line>, env: Env)
    requires env.logReachable && Contains(raw, ",") && Classify(text) == PlaceOrder
    ensures AnswerIntended(raw, text, lines, env) ==
      if env.route.None? then RouteFailedReply else RouteReply(env.route.value)
  {
  }

  /** With a working `registrarPedido`, an understood and saved order is
      answered with its lines and their total. */
  lemma IntendedOrderReply(msg: Message, env: Env)
    requires !msg.fromMe && !Contains(msg.sender, "@g.us")
    requires env.logReachable && env.menu.Some? && env.saved
    requires ',' !in msg.body
    requires Classify(Normalize(msg.body)) == PlaceOrder
    requires OrderLines(env.menu.value, Normalize(msg.body), env.sim) != []
    ensures var lines := OrderLines(env.menu.value, Normalize(msg.body), env.sim);
      HandleIntended(msg, env) == Some(OrderReply(lines, Total(lines)))
  {
    var text := Normalize(msg.body);
    ContainsChar(msg.body, ',');
    IntendedOrderBranch(msg.body, text, Lines(text, env), env);
  }

  /** The corrected order branch answers from the order lines alone. */
  lemma IntendedOrderBranch(raw: string, text: string, lines: seq<Line>, env: Env)
    requires env.logReachable && env.menu.Some? && env.saved && lines != []
    requires !Contains(raw, ",") && Classify(text) == PlaceOrder
    ensures AnswerIntended(raw, text, lines, env) == OrderReply(lines, Total(lines))
  {
  }

  /** Elsewhere the intended handler answers as the written one. */
  lemma IntendedAgreesElsewhere(msg: Message, env: Env)
    requires ',' !in msg.body
    requires msg.fromMe || Contains(msg.sender, "@g.us") || !env.logReachable
      || Classify(Normalize(msg.body)) != PlaceOrder
    ensures HandleIntended(msg, env) == Handle(msg, env)
  {
    var text := Normalize(msg.body);
    ContainsChar(msg.body, ',');
    AddressUnreachable(msg.body);
    if !msg.fromMe && !Contains(msg.sender, "@g.us") {
      IntendedAgreesBranch(msg.body, text, Lines(text, env), env);
    }
  }

  /** Away from the address and order branches, both answers agree. */
  lemma IntendedAgreesBranch(raw: string, text: string, lines: seq<Line>, env: Env)
    requires !Contains(raw, ",") && Classify(text) != Address
    requires !env.logReachable || Classify(text) != PlaceOrder
    ensures AnswerIntended(raw, text, lines, env) == Answer(text, lines, env)
  {
  }
}

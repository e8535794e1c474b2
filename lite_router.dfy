/**
 * The `message` handler of `lanchonete-bot/src/bot.js`, the smaller bot:
 * no group check, four keyword tests and the order fallback, short fixed
 * replies, the menu formatted inline and no call that saves the order.
 */
module LiteRouter {
  import opened Wrappers
  import opened Strings
  import opened Normalization
  import opened Catalog
  import opened Matcher
  import opened Extractor
  import Router

  /** The collaborators' answers for one message: whether `registrarLog`
      reaches the database, what `obterCardapio` returns (None when it
      throws), and the similarity measure. */
  datatype Env = Env(logReachable: bool, menu: Option<seq<Item>>, sim: Similarity)

  const HelpReply: string := "Ajuda dispon\U{ED}vel!"
  const ConfirmReply: string := "Pedido confirmado!"
  const CancelReply: string := "Pedido cancelado."
  const NotUnderstoodReply: string := "N\U{E3}o entendi seu pedido."
  const ErrorReply: string := "Erro ao processar pedido."

  /** The reply to an understood order: its total only, written with two
      decimals at the end of the reply. */
  function TotalReply(total: int): (r: string)
    ensures |MoneyText(total)| < |r| && r[|r| - |MoneyText(total)|..] == MoneyText(total)
  {
    " Pedido registrado! Total: R$ " + MoneyText(total)
  }

  /** The keyword chain, first match wins; every other text is an order. */
  function Classify(text: string): Router.Route {
    if Contains(text, "cardapio") || Contains(text, "menu") then Router.ShowMenu
    else if Contains(text, "ajuda") then Router.Help
    else if Contains(text, "confirmar") then Router.Confirm
    else if Contains(text, "cancelar") then Router.Cancel
    else Router.PlaceOrder
  }

  /** The keyword tests of this bot, in the order it makes them. */
  const Rows: seq<(Router.Route, seq<string>)> := [
    (Router.ShowMenu, ["cardapio", "menu"]), (Router.Help, ["ajuda"]),
    (Router.Confirm, ["confirmar"]), (Router.Cancel, ["cancelar"])]

  /** This bot's chain of tests is the table `Rows` read first hit first. */
  lemma ClassifyIsFirstHit(text: string)
    ensures Classify(text) == Router.FirstHit(text, Rows)
  {
    var rows := Rows;
    assert rows[1..][1..][1..][1..] == [];
  }

  /** What `processarPedido` returns for the normalised text, with the
      catalog `obterCardapio` returned (nothing is read without one). */
  function Lines(text: string, env: Env): seq<Line> {
    if env.menu.None? then [] else OrderLines(env.menu.value, text, env.sim)
  }

  /** The body of the `try` block, for the normalised text and its order
      lines. The source reads the lines only in the order branch; they
      depend on the text alone, so reading them first changes no reply. */
  function Answer(text: string, lines: seq<Line>, env: Env): (r: string)
    ensures !env.logReachable || (env.menu.None? && Classify(text) in {Router.ShowMenu, Router.PlaceOrder}) ==> r == ErrorReply
  {
    if !env.logReachable then ErrorReply
    else
      var route := Classify(text);
      if route == Router.Help then HelpReply
      else if route == Router.Confirm then ConfirmReply
      else if route == Router.Cancel then CancelReply
      else if env.menu.None? then ErrorReply
      else if route == Router.ShowMenu then Menu(env.menu.value)
      else if lines == [] then NotUnderstoodReply
      else TotalReply(Total(lines))
  }

  /** The `message` handler: None when the bot does not reply. */
  function Handle(msg: Router.Message, env: Env): (reply: Option<string>)
    ensures reply.None? <==> msg.fromMe
  {
    if msg.fromMe then None
    else
      var text := Normalize(msg.body);
      Some(Answer(text, Lines(text, env), env))
  }

  /** The smaller bot has no group check: who sent a message does not
      change the reply. */
  lemma SenderIgnored(msg: Router.Message, sender: string, env: Env)
    ensures Handle(msg.(sender := sender), env) == Handle(msg, env)
  {
  }

  /** The routes this bot knows are those of `src/bot.js`. On a text with
      none of the keywords only the larger bot has, both bots take the same
      branch; in any case, what this bot reads as an order the larger bot
      reads as an order too, or as one of its extra branches. */
  lemma SameRoutes(text: string)
    ensures Classify(text) in {Router.ShowMenu, Router.Help, Router.Confirm, Router.Cancel, Router.PlaceOrder}
    ensures (!Contains(text, "localizacao") && !Contains(text, "onde") && !Contains(text, "entrega")
      && !Contains(text, ",")) ==> Classify(text) == Router.Classify(text)
    ensures Router.Classify(text) == Router.PlaceOrder ==> Classify(text) == Router.PlaceOrder
    ensures Classify(text) == Router.PlaceOrder ==>
      Router.Classify(text) in {Router.Location, Router.Delivery, Router.Address, Router.PlaceOrder}
  {
  }

  /** "onde" is an order here but the location in `src/bot.js`. */
  lemma OndeDiffers(text: string)
    requires text == "onde"
    ensures Classify(text) == Router.PlaceOrder && Router.Classify(text) == Router.Location
  {
    ContainsSlice(text, 0, "onde");
    MissingFirstChar(text, "cardapio");
    MissingFirstChar(text, "menu");
    MissingFirstChar(text, "ajuda");
    MissingFirstChar(text, "confirmar");
    MissingFirstChar(text, "cancelar");
  }

  /** An understood order is answered with the sum of price times quantity
      over its lines; an order with no line gets the "not understood"
      reply. */
  lemma OrderReplies(msg: Router.Message, env: Env)
    requires !msg.fromMe && env.logReachable && env.menu.Some?
    requires Classify(Normalize(msg.body)) == Router.PlaceOrder
    ensures var lines := OrderLines(env.menu.value, Normalize(msg.body), env.sim);
      Handle(msg, env) == Some(if lines == [] then NotUnderstoodReply else TotalReply(Total(lines)))
  {
    var text := Normalize(msg.body);
    OrderBranch(text, Lines(text, env), env);
  }

  /** The order branch answers from the order lines alone. */
  lemma OrderBranch(text: string, lines: seq<Line>, env: Env)
    requires env.logReachable && env.menu.Some? && Classify(text) == Router.PlaceOrder
    ensures Answer(text, lines, env) == if lines == [] then NotUnderstoodReply else TotalReply(Total(lines))
  {
  }
}

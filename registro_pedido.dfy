/**
 * Order intake: the validation of an order form before it is inserted in the
 * `orders` table (the insertion and the newest-first listing are the
 * `Orders.OrderRepository` members `CreateOrder` and `ListOrders`).
 */
module RegistroPedido {

  import opened Wrappers
  import opened Text
  import opened Orders

  /** The order form. A quantity that is not an integer is not modelled. */
  datatype OrderDto = OrderDto(
    clientName: string,
    product: string,
    size: string,
    qty: int,
    paymentMethod: string)

  /** The five ways a form can be refused, in the order they are checked. */
  datatype DtoError = NameRequired | InvalidProduct | InvalidSize | InvalidQty | InvalidPayment

  /** `", ".join(xs)`. */
  function Join(xs: seq<string>): (r: string)
    ensures xs == [] ==> r == []
    ensures |xs| == 1 ==> r == xs[0]
  {
    if xs == [] then []
    else if |xs| == 1 then xs[0]
    else xs[0] + ", " + Join(xs[1..])
  }

  /** The message shown for each refusal. */
  function Message(e: DtoError): string {
    match e
    case NameRequired => "El nombre del cliente es obligatorio."
    case InvalidProduct => "Producto inválido. Usa: " + Join(VALID_PRODUCTS) + "."
    case InvalidSize => "Tamaño inválido. Usa: " + Join(VALID_SIZES) + "."
    case InvalidQty => "La cantidad debe ser un entero mayor que 0."
    case InvalidPayment => "Método de pago inválido. Usa: " + Join(VALID_PAYMENTS) + "."
  }

  /** The letter each message starts with. */
  function Initial(e: DtoError): char {
    match e
    case NameRequired => 'E'
    case InvalidProduct => 'P'
    case InvalidSize => 'T'
    case InvalidQty => 'L'
    case InvalidPayment => 'M'
  }

  lemma MessageStartsWithInitial(e: DtoError)
    ensures Message(e) != [] && Message(e)[0] == Initial(e)
  {
    match e
    case NameRequired =>
      var text := "El nombre del cliente es obligatorio.";
      assert Message(e) == text && text[0] == 'E';
    case InvalidProduct =>
      var head := "Producto inválido. Usa: ";
      assert head[0] == 'P';
      assert (head + Join(VALID_PRODUCTS) + ".")[0] == head[0];
    case InvalidSize =>
      var head := "Tamaño inválido. Usa: ";
      assert head[0] == 'T';
      assert (head + Join(VALID_SIZES) + ".")[0] == head[0];
    case InvalidQty =>
      var text := "La cantidad debe ser un entero mayor que 0.";
      assert Message(e) == text && text[0] == 'L';
    case InvalidPayment =>
      var head := "Método de pago inválido. Usa: ";
      assert head[0] == 'M';
      assert (head + Join(VALID_PAYMENTS) + ".")[0] == head[0];
  }

  /** Each refusal has a message of its own, so the form tells the user which check failed. */
  lemma MessagesDistinct(e1: DtoError, e2: DtoError)
    ensures Message(e1) == Message(e2) <==> e1 == e2
  {
    MessageStartsWithInitial(e1);
    MessageStartsWithInitial(e2);
  }

  lemma JoinTwo(a: string, b: string)
    ensures Join([a, b]) == a + ", " + b
  {
    assert [a, b][1..] == [b];
  }

  lemma JoinThree(a: string, b: string, c: string)
    ensures Join([a, b, c]) == a + ", " + (b + ", " + c)
  {
    assert [a, b, c][1..] == [b, c];
    JoinTwo(b, c);
  }

  /** The refusals of a closed-set field list its accepted values, comma-separated. */
  lemma MessagesListChoices()
    ensures Message(InvalidProduct) == "Producto inválido. Usa: " + ("pepperoni" + ", " + "hawaiana") + "."
    ensures Message(InvalidSize) == "Tamaño inválido. Usa: " + ("personal" + ", " + ("mediana" + ", " + "grande")) + "."
    ensures Message(InvalidPayment) ==
      "Método de pago inválido. Usa: " + ("efectivo" + ", " + ("tarjeta" + ", " + "transferencia")) + "."
  {
    JoinTwo("pepperoni", "hawaiana");
    JoinThree("personal", "mediana", "grande");
    JoinThree("efectivo", "tarjeta", "transferencia");
  }

  /**
   * `validate_dto`: `None` when the form may be stored, otherwise the first
   * failing check among name, product, size, quantity and payment.
   */
  function ValidateDto(dto: OrderDto): (r: Option<DtoError>)
    ensures r.None? <==>
      && !AllSpaces(dto.clientName)
      && dto.product in VALID_PRODUCTS
      && dto.size in VALID_SIZES
      && dto.qty > 0
      && dto.paymentMethod in VALID_PAYMENTS
    ensures r == Some(NameRequired) <==> AllSpaces(dto.clientName)
    ensures r == Some(InvalidProduct) <==> !AllSpaces(dto.clientName) && dto.product !in VALID_PRODUCTS
    ensures r == Some(InvalidSize) <==>
      !AllSpaces(dto.clientName) && dto.product in VALID_PRODUCTS && dto.size !in VALID_SIZES
    ensures r == Some(InvalidQty) <==>
      !AllSpaces(dto.clientName) && dto.product in VALID_PRODUCTS && dto.size in VALID_SIZES && dto.qty <= 0
    ensures r == Some(InvalidPayment) <==>
      && !AllSpaces(dto.clientName) && dto.product in VALID_PRODUCTS && dto.size in VALID_SIZES && dto.qty > 0
      && dto.paymentMethod !in VALID_PAYMENTS
  {
    if Strip(dto.clientName) == [] then Some(NameRequired)
    else if dto.product !in VALID_PRODUCTS then Some(InvalidProduct)
    else if dto.size !in VALID_SIZES then Some(InvalidSize)
    else if dto.qty <= 0 then Some(InvalidQty)
    else if dto.paymentMethod !in VALID_PAYMENTS then Some(InvalidPayment)
    else None
  }

  /** A name made only of whitespace (the empty name included) is refused first, whatever else the form holds. */
  lemma BlankNameIsRefused(dto: OrderDto, blanks: nat)
    requires dto.clientName == seq(blanks, _ => ' ')
    ensures ValidateDto(dto) == Some(NameRequired)
  {
    assert AllSpaces(dto.clientName) by {
      forall i | 0 <= i < |dto.clientName|
        ensures IsSpace(dto.clientName[i])
      {
      }
    }
  }
}
